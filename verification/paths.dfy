/**
 * `compute_rel_path`: the link target from one chapter file to another.
 * Paths are `/`-separated strings; like Rust's `Path`, they are compared and
 * walked component by component, so empty components (`a//b`, a trailing `/`)
 * do not count.
 */
module Paths {

  /** A component made of a name, as every chapter path is assumed to be. */
  predicate Plain(seg: string)
  {
    seg != "" && seg != "." && seg != ".." && '/' !in seg
  }

  /** A component as `Segments` returns it: non-empty and without a separator. */
  predicate Component(seg: string)
  {
    seg != "" && '/' !in seg
  }

  /** Index of the first `/` of `p`. */
  function SlashIndex(p: string): (i: nat)
    requires '/' in p
    ensures i < |p| && p[i] == '/' && '/' !in p[..i]
  {
    if p[0] == '/' then 0
    else
      assert '/' in p[1..] by { var j :| 0 <= j < |p| && p[j] == '/'; assert p[1..][j - 1] == '/'; }
      var i := 1 + SlashIndex(p[1..]);
      assert p[..i] == [p[0]] + p[1..][..i - 1];
      i
  }

  /** The components of a path: the pieces between separators, empty ones dropped. */
  function Segments(p: string): (r: seq<string>)
    ensures forall k :: 0 <= k < |r| ==> Component(r[k])
    decreases |p|
  {
    if '/' !in p then (if p == "" then [] else [p])
    else
      var i := SlashIndex(p);
      (if i == 0 then [] else [p[..i]]) + Segments(p[i + 1..])
  }

  /** Components written out with a `/` between consecutive ones. */
  function Join(segs: seq<string>): string
  {
    if segs == [] then ""
    else if |segs| == 1 then segs[0]
    else segs[0] + "/" + Join(segs[1..])
  }

  /** The directory holding a file: `PathBuf::pop` drops the last component. */
  function Parent(segs: seq<string>): seq<string>
  {
    if segs == [] then [] else segs[..|segs| - 1]
  }

  /** `n` parent-directory components. */
  function Ups(n: nat): (r: seq<string>)
    ensures |r| == n && forall k :: 0 <= k < n ==> r[k] == ".."
  {
    if n == 0 then [] else Ups(n - 1) + [".."]
  }

  /** Length of the longest common prefix of two component lists. */
  function CommonPrefix(a: seq<string>, b: seq<string>): (k: nat)
    ensures k <= |a| && k <= |b| && a[..k] == b[..k]
    ensures k < |a| && k < |b| ==> a[k] != b[k]
  {
    if a == [] || b == [] || a[0] != b[0] then 0
    else
      var k := 1 + CommonPrefix(a[1..], b[1..]);
      assert a[..k] == [a[0]] + a[1..][..k - 1];
      assert b[..k] == [b[0]] + b[1..][..k - 1];
      k
  }

  /**
   * `pathdiff::diff_paths(target, base)` on relative paths of plain components:
   * one `..` for every component of `base` past the common prefix, then the rest
   * of `target`.
   */
  function Relative(target: seq<string>, base: seq<string>): (r: seq<string>)
    ensures var k := CommonPrefix(target, base);
      |r| == |base| - k + |target| - k
      && (forall m :: 0 <= m < |base| - k ==> r[m] == "..")
      && r[|base| - k..] == target[k..]
  {
    var k := CommonPrefix(target, base);
    Ups(|base| - k) + target[k..]
  }

  /**
   * `compute_rel_path(chap_path, path_to_ref)`: empty when both name the same
   * file, otherwise the path of `target` relative to the directory of `chap`.
   */
  function ComputeRelPath(chap: string, target: string): string
  {
    if Segments(chap) == Segments(target) then ""
    else Join(Relative(Segments(target), Parent(Segments(chap))))
  }

  /** Following a relative path from a directory: `..` goes up, a name goes down. */
  function Walk(dir: seq<string>, rel: seq<string>): seq<string>
    decreases |rel|
  {
    if rel == [] then dir
    else Walk(if rel[0] == ".." then Parent(dir) else dir + [rel[0]], rel[1..])
  }

  // ---------------------------------------------------------------------------
  // Properties

  /** A link between two names of the same file is anchor-only. */
  lemma SameFileIsEmpty(chap: string, target: string)
    requires Segments(chap) == Segments(target)
    ensures ComputeRelPath(chap, target) == ""
  {
  }

  /** The link between two files with known, different components. */
  lemma RelPathOf(chap: string, target: string, cs: seq<string>, ts: seq<string>)
    requires Segments(chap) == cs && Segments(target) == ts && cs != ts
    ensures ComputeRelPath(chap, target) == Join(Relative(ts, Parent(cs)))
  {
  }

  /** A leading component is split off at the first separator. */
  lemma SegmentsCons(x: string, rest: string)
    requires Component(x)
    ensures Segments(x + "/" + rest) == [x] + Segments(rest)
  {
    var p := x + "/" + rest;
    assert p[|x|] == '/';
    assert p[..|x|] == x;
    assert SlashIndex(p) == |x|;
    assert p[|x| + 1..] == rest;
  }

  /** A leading separator yields no component. */
  lemma SegmentsSlash(rest: string)
    ensures Segments("/" + rest) == Segments(rest)
  {
    var p := "/" + rest;
    assert p[0] == '/';
    assert p[1..] == rest;
  }

  /** Splitting joined components gives them back. */
  lemma {:induction false} SegmentsOfJoin(segs: seq<string>)
    requires forall k :: 0 <= k < |segs| ==> Component(segs[k])
    ensures Segments(Join(segs)) == segs
    decreases |segs|
  {
    if segs == [] {
    } else if |segs| == 1 {
      assert Component(segs[0]);
    } else {
      SegmentsCons(segs[0], Join(segs[1..]));
      SegmentsOfJoin(segs[1..]);
      assert segs == [segs[0]] + segs[1..];
    }
  }

  /** Walking up `n` levels removes the last `n` components. */
  lemma {:induction false} WalkUps(dir: seq<string>, n: nat, rest: seq<string>)
    requires n <= |dir|
    ensures Walk(dir, Ups(n) + rest) == Walk(dir[..|dir| - n], rest)
    decreases n
  {
    if n > 0 {
      var ups := Ups(n);
      assert ups == [".."] + Ups(n - 1) by {
        UpsCons(n);
      }
      assert (ups + rest)[0] == "..";
      assert (ups + rest)[1..] == Ups(n - 1) + rest;
      assert Walk(dir, ups + rest) == Walk(Parent(dir), Ups(n - 1) + rest);
      var up := dir[..|dir| - 1];
      assert Parent(dir) == up;
      WalkUps(up, n - 1, rest);
      assert up[..|up| - (n - 1)] == dir[..|dir| - n];
    } else {
      assert Ups(n) + rest == rest;
      assert dir[..|dir|] == dir;
    }
  }

  lemma {:induction false} UpsCons(n: nat)
    requires n > 0
    ensures Ups(n) == [".."] + Ups(n - 1)
  {
  }

  /** Walking down plain names appends them. */
  lemma {:induction false} WalkNames(dir: seq<string>, rest: seq<string>)
    requires forall k :: 0 <= k < |rest| ==> Plain(rest[k])
    ensures Walk(dir, rest) == dir + rest
    decreases |rest|
  {
    if rest != [] {
      assert rest[0] != "..";
      WalkNames(dir + [rest[0]], rest[1..]);
      assert dir + [rest[0]] + rest[1..] == dir + rest;
    }
  }

  /** Following `Relative(target, base)` from `base` arrives at `target`. */
  lemma RelativeRoundTrip(target: seq<string>, base: seq<string>)
    requires forall k :: 0 <= k < |target| ==> Plain(target[k])
    ensures Walk(base, Relative(target, base)) == target
  {
    var k := CommonPrefix(target, base);
    WalkUps(base, |base| - k, target[k..]);
    assert base[..|base| - (|base| - k)] == base[..k] == target[..k];
    WalkNames(target[..k], target[k..]);
    assert target[..k] + target[k..] == target;
  }

  /**
   * The link target leads back to the defining file: following it from the
   * directory of the referencing file arrives at the defining file's components.
   */
  lemma RelPathRoundTrip(chap: string, target: string)
    requires Segments(chap) != Segments(target)
    requires forall k :: 0 <= k < |Segments(target)| ==> Plain(Segments(target)[k])
    ensures Walk(Parent(Segments(chap)), Segments(ComputeRelPath(chap, target))) == Segments(target)
  {
    var t, base := Segments(target), Parent(Segments(chap));
    var rel := Relative(t, base);
    assert ComputeRelPath(chap, target) == Join(rel);
    RelativeComponents(t, base);
    SegmentsOfJoin(rel);
    RelativeRoundTrip(t, base);
  }

  /** A relative path to plain components is made of components. */
  /**
   * `compute_rel_path`: the same file gives the empty link path; otherwise the
   * link path's components are `diff_paths` of the target against the folder
   * of the referencing file.
   */
  lemma RelPathSegments(chap: string, target: string)
    ensures var r := ComputeRelPath(chap, target);
      (Segments(chap) == Segments(target) ==> r == "")
      && (Segments(chap) != Segments(target) ==> Segments(r) == Relative(Segments(target), Parent(Segments(chap))))
  {
    if Segments(chap) != Segments(target) {
      var t, base := Segments(target), Parent(Segments(chap));
      var rel := Relative(t, base);
      var k := CommonPrefix(t, base);
      forall m | 0 <= m < |rel| ensures Component(rel[m]) {
        if m >= |base| - k {
          assert rel[m] == rel[|base| - k..][m - (|base| - k)] == t[k..][m - (|base| - k)];
        }
      }
      SegmentsOfJoin(rel);
    }
  }

  lemma RelativeComponents(target: seq<string>, base: seq<string>)
    requires forall k :: 0 <= k < |target| ==> Plain(target[k])
    ensures var rel := Relative(target, base); forall m :: 0 <= m < |rel| ==> Component(rel[m])
  {
    var rel := Relative(target, base);
    var k := CommonPrefix(target, base);
    forall m | 0 <= m < |rel| ensures Component(rel[m]) {
      if m >= |base| - k {
        assert rel[m] == rel[|base| - k..][m - (|base| - k)] == target[k..][m - (|base| - k)];
      }
    }
  }
}
