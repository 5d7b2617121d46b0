/**
 * `find_and_replace_refs`: the second pass, which turns `{{ref: label}}` and
 * `{{tref: label}}` into links using the finished registry. It only reads the
 * registry, so it is a function.
 *
 * The regular expression `\{\{(?P<reftype>ref:|tref:)\s*(?P<label>.*?)\}\}` is
 * replaced by the scanner `RefTokenize`: after the keyword, every white-space
 * character is skipped (line breaks included), and the label runs from there to
 * the first `}}`, provided no line break comes first. Trailing white space stays
 * in the label.
 */
module Refs {
  import opened Text
  import opened Envs
  import Paths

  /** `ref:` shows the numbered name, `tref:` the title. */
  datatype RefKind = NumRef | TitleRef

  /** A piece of scanned text: one literal character, or one reference marker. */
  datatype RefPiece = Char(c: char) | Ref(kind: RefKind, space: string, lbl: string)

  function Keyword(kind: RefKind): string
  {
    match kind
    case NumRef => "ref:"
    case TitleRef => "tref:"
  }

  /** The text a piece was scanned from. */
  function RefSource(p: RefPiece): string
  {
    match p
    case Char(c) => [c]
    case Ref(kind, space, lbl) => "{{" + Keyword(kind) + space + lbl + "}}"
  }

  /** The text a sequence of pieces was scanned from. */
  function RefUnparse(ps: seq<RefPiece>): string
  {
    if ps == [] then "" else RefSource(ps[0]) + RefUnparse(ps[1..])
  }

  /** `s` holds `w` at position `i`. */
  predicate HasAt(s: string, i: nat, w: string)
  {
    i + |w| <= |s| && s[i..i + |w|] == w
  }

  /** The greedy `\s*`: the first position at or after `j` that is not white space. */
  function SkipSpace(s: string, j: nat): (p: nat)
    requires j <= |s|
    ensures j <= p <= |s|
    ensures forall m :: j <= m < p ==> IsWhitespace(s[m])
    ensures p < |s| ==> !IsWhitespace(s[p])
    decreases |s| - j
  {
    if j < |s| && IsWhitespace(s[j]) then SkipSpace(s, j + 1) else j
  }

  /** `s` holds the closing `}}` at position `j`. */
  predicate ClosesAt(s: string, j: int)
  {
    0 <= j && j + 1 < |s| && s[j] == '}' && s[j + 1] == '}'
  }

  /**
   * The lazy `.*?` followed by `\}\}`: the first `}}` at or after `from`,
   * provided no line break comes before it.
   */
  function FindRefEnd(s: string, from: nat): (k: Option<nat>)
    ensures k.Some? ==> from <= k.value && ClosesAt(s, k.value)
    ensures k.Some? ==> forall j :: from <= j < k.value ==> s[j] != '\n'
    ensures k.Some? ==> forall j :: from <= j < k.value ==> !ClosesAt(s, j)
    ensures k.None? ==> forall j :: from <= j && ClosesAt(s, j) ==> '\n' in s[from..j]
    decreases |s| - from
  {
    if from + 1 >= |s| then None
    else if ClosesAt(s, from) then Some(from)
    else if s[from] == '\n' then None
    else
      var k := FindRefEnd(s, from + 1);
      assert k.None? ==> forall j :: from <= j && ClosesAt(s, j) ==> '\n' in s[from..j] by {
        forall j | from < j && ClosesAt(s, j) && k.None?
          ensures '\n' in s[from..j]
        {
          var m :| 0 <= m < |s[from + 1..j]| && s[from + 1..j][m] == '\n';
          assert s[from..j][m + 1] == '\n';
        }
      }
      k
  }

  /** A label that the scanner reads back whole: no `}` that would start the closing `}}` early. */
  predicate ClosesCleanly(lbl: string)
  {
    (forall j :: 0 <= j < |lbl| ==> !ClosesAt(lbl, j)) && (lbl == [] || lbl[|lbl| - 1] != '}')
  }

  /**
   * The parts of a marker as the pattern captures them: whitespace only, then a
   * label that does not start with whitespace (the greedy `\s*` took it all),
   * holds no line break and no `}}`.
   */
  predicate Canonical(space: string, lbl: string)
  {
    (forall m :: 0 <= m < |space| ==> IsWhitespace(space[m]))
    && (lbl == "" || !IsWhitespace(lbl[0]))
    && '\n' !in lbl && ClosesCleanly(lbl)
  }

  /** `s[i..e]` is the text of the reference `p`, and `p`'s parts are canonical. */
  predicate Spans(s: string, i: nat, p: RefPiece, e: nat)
  {
    p.Ref? && i < e <= |s| && s[i..e] == RefSource(p) && Canonical(p.space, p.lbl)
  }

  /** The keyword of a marker opening at `i`: `{{ref:` or `{{tref:`. */
  function MarkerKind(s: string, i: nat): (k: Option<RefKind>)
    ensures k.Some? ==> HasAt(s, i, "{{" + Keyword(k.value))
    ensures k.None? ==> !HasAt(s, i, "{{ref:") && !HasAt(s, i, "{{tref:")
    ensures !HasAt(s, i, "{{") ==> k.None?
  {
    if HasAt(s, i, "{{ref:") then
      assert s[i..i + 2] == s[i..i + 6][..2];
      Some(NumRef)
    else if HasAt(s, i, "{{tref:") then
      assert s[i..i + 2] == s[i..i + 7][..2];
      Some(TitleRef)
    else None
  }

  /** The marker text between `i` and the end of its closing `}}`, as the scanner splits it. */
  lemma MarkerText(s: string, i: nat, kind: RefKind, p: nat, k: nat)
    requires HasAt(s, i, "{{" + Keyword(kind))
    requires i + 2 + |Keyword(kind)| <= p <= k && ClosesAt(s, k)
    ensures s[i..k + 2] == RefSource(Ref(kind, s[i + 2 + |Keyword(kind)|..p], s[p..k]))
  {
    var w := "{{" + Keyword(kind);
    assert s[i..i + |w|] == w;
    ClosingText(s, k);
    FourSlices(s, i, i + |w|, p, k, k + 2, w, "}}");
  }

  lemma ClosingText(s: string, k: nat)
    requires ClosesAt(s, k)
    ensures s[k..k + 2] == "}}"
  {
  }

  /** A slice cut in four, with known first and last parts. */
  lemma FourSlices(s: string, i: nat, j: nat, p: nat, k: nat, e: nat, first: string, last: string)
    requires i <= j <= p <= k <= e <= |s| && s[i..j] == first && s[k..e] == last
    ensures s[i..e] == first + s[j..p] + s[p..k] + last
  {
    SplitSlice(s, i, k, e);
    SplitSlice(s, i, p, k);
    SplitSlice(s, i, j, p);
  }

  /** A slice is its two halves around any point in it. */
  lemma SplitSlice(s: string, a: nat, b: nat, c: nat)
    requires a <= b <= c <= |s|
    ensures s[a..c] == s[a..b] + s[b..c]
  {
  }

  /** What the two scans found: whitespace up to `p`, then a label ending at the first `}}`. */
  lemma MarkerParts(s: string, j: nat, p: nat, k: nat)
    requires j <= p <= k && ClosesAt(s, k)
    requires forall m :: j <= m < p ==> IsWhitespace(s[m])
    requires !IsWhitespace(s[p])
    requires forall m :: p <= m < k ==> s[m] != '\n'
    requires forall m :: p <= m < k ==> !ClosesAt(s, m)
    ensures Canonical(s[j..p], s[p..k])
  {
    var space, lbl := s[j..p], s[p..k];
    forall m | 0 <= m < |space| ensures IsWhitespace(space[m]) {
      assert space[m] == s[j + m];
    }
    assert lbl == "" || lbl[0] == s[p];
    forall m | 0 <= m < |lbl| ensures lbl[m] != '\n' {
      assert lbl[m] == s[p + m];
    }
    forall m | 0 <= m < |lbl|
      ensures !ClosesAt(lbl, m)
    {
      if m + 1 < |lbl| {
        assert lbl[m] == s[p + m] && lbl[m + 1] == s[p + m + 1];
        assert !ClosesAt(s, p + m);
      }
    }
    if lbl != [] {
      assert lbl[|lbl| - 1] == s[k - 1];
      assert !ClosesAt(s, k - 1);
    }
  }

  /** The reference marker starting at `i`, if any, and the position after it. */
  function ParseRef(s: string, i: nat): (r: Option<(RefPiece, nat)>)
    requires i <= |s|
    ensures r.Some? ==> Spans(s, i, r.value.0, r.value.1)
    ensures !HasAt(s, i, "{{") ==> r.None?
  {
    match MarkerKind(s, i)
    case None => None
    case Some(kind) => MarkerRest(s, i, kind)
  }

  /** The rest of a marker whose keyword opens at `i`: white space, a label, `}}`. */
  function MarkerRest(s: string, i: nat, kind: RefKind): (r: Option<(RefPiece, nat)>)
    requires HasAt(s, i, "{{" + Keyword(kind))
    ensures r.Some? ==> Spans(s, i, r.value.0, r.value.1)
  {
    var j := i + 2 + |Keyword(kind)|;
    var p := SkipSpace(s, j);
    match FindRefEnd(s, p)
    case None => None
    case Some(k) =>
      MarkerShape(s, i, kind, p, k);
      Some((Ref(kind, s[j..p], s[p..k]), k + 2))
  }

  /** The reference read from the two scans' results spans the marker and has canonical parts. */
  lemma MarkerShape(s: string, i: nat, kind: RefKind, p: nat, k: nat)
    requires HasAt(s, i, "{{" + Keyword(kind))
    requires SkipSpace(s, i + 2 + |Keyword(kind)|) == p && FindRefEnd(s, p) == Some(k)
    ensures i + 2 + |Keyword(kind)| <= p <= k
    ensures Spans(s, i, Ref(kind, s[i + 2 + |Keyword(kind)|..p], s[p..k]), k + 2)
  {
    var j := i + 2 + |Keyword(kind)|;
    MarkerText(s, i, kind, p, k);
    MarkerParts(s, j, p, k);
  }

  /**
   * The converse of `ParseRef`: where a keyword is present but no reference is read,
   * every `}}` after the white space that follows the keyword comes after a line break.
   * Giving back white space to `\s*` cannot help, because white space is never `}`.
   */
  lemma ParseRefNone(s: string, i: nat, kind: RefKind)
    requires i <= |s| && ParseRef(s, i).None?
    requires HasAt(s, i, "{{" + Keyword(kind))
    ensures var p := SkipSpace(s, i + 2 + |Keyword(kind)|);
      forall k :: p <= k && ClosesAt(s, k) ==> '\n' in s[p..k]
  {
    KindOfMarker(s, i, kind);
  }

  /** `ref:` and `tref:` differ in their first letter, so a marker has one kind only. */
  lemma KindOfMarker(s: string, i: nat, kind: RefKind)
    requires HasAt(s, i, "{{" + Keyword(kind))
    ensures MarkerKind(s, i) == Some(kind)
  {
    assert s[i + 2] == ("{{" + Keyword(kind))[2];
    match kind
    case NumRef =>
      assert "{{" + Keyword(kind) == "{{ref:";
    case TitleRef =>
      assert "{{" + Keyword(kind) == "{{tref:";
      assert s[i + 2] == 't';
  }

  /** Left-to-right, non-overlapping scan of `s[i..]` for reference markers. */
  function RefTokenize(s: string, i: nat): (r: seq<RefPiece>)
    requires i <= |s|
    ensures |r| <= |s| - i && (r == [] <==> i == |s|)
    decreases |s| - i
  {
    if i == |s| then []
    else
      match ParseRef(s, i)
      case Some((p, end)) => [p] + RefTokenize(s, end)
      case None => [Char(s[i])] + RefTokenize(s, i + 1)
  }

  /** The scanner takes one piece off the front of the remaining text. */
  lemma RefTokenizeUnfold(s: string, i: nat)
    requires i < |s|
    ensures ParseRef(s, i).Some? ==>
      RefTokenize(s, i) == [ParseRef(s, i).value.0] + RefTokenize(s, ParseRef(s, i).value.1)
    ensures ParseRef(s, i).None? ==> RefTokenize(s, i) == [Char(s[i])] + RefTokenize(s, i + 1)
  {
  }

  // ---------------------------------------------------------------------------
  // Resolution

  /** The text of a link: the numbered name for `ref:`, the title (or the numbered name) for `tref:`. */
  function LinkText(kind: RefKind, info: LabelInfo): (r: string)
    ensures kind == NumRef || info.title.None? ==> r == info.numName
    ensures kind == TitleRef && info.title.Some? ==> r == info.title.value
  {
    match kind
    case NumRef => info.numName
    case TitleRef =>
      match info.title
      case Some(t) => t
      case None => info.numName
  }

  /** What one piece becomes: a link, the `**[??]**` placeholder, or itself. */
  function Replacement(p: RefPiece, chapPath: string, refs: Registry): string
  {
    match p
    case Char(c) => [c]
    case Ref(kind, _, lbl) =>
      if lbl in refs then "[" + LinkText(kind, refs[lbl]) + "](" + Paths.ComputeRelPath(chapPath, refs[lbl].path) + "#" + lbl + ")"
      else "**[??]**"
  }

  /**
   * A character stays itself; a reference becomes `**[??]**` exactly when its
   * label is unknown, and otherwise a link `[...](...#label)` to the label's anchor.
   */
  lemma ReplacementShape(p: RefPiece, chapPath: string, refs: Registry)
    ensures var r := Replacement(p, chapPath, refs);
      (p.Char? ==> r == [p.c])
      && (p.Ref? ==> (r == "**[??]**" <==> p.lbl !in refs))
      && (p.Ref? && p.lbl in refs ==>
            var tail := "#" + p.lbl + ")";
            |tail| < |r| && r[0] == '[' && r[|r| - |tail|..] == tail)
  {
    if p.Ref? && p.lbl in refs {
      var head, tail := "[" + LinkText(p.kind, refs[p.lbl]) + "](" + Paths.ComputeRelPath(chapPath, refs[p.lbl].path), "#" + p.lbl + ")";
      assert Replacement(p, chapPath, refs) == head + tail;
      assert (head + tail)[0] == head[0] == '[';
      assert (head + tail)[|head|..] == tail;
    }
  }

  /** The rewritten text and the unknown-reference warnings. */
  datatype Resolved = Resolved(text: string, warnings: seq<Warning>)

  /** The warning one piece raises: one for a reference to an unknown label, none otherwise. */
  function WarningOf(p: RefPiece, refs: Registry): seq<Warning>
  {
    if p.Ref? && p.lbl !in refs then [UnknownReference(p.lbl)] else []
  }

  function ResolvePieces(ps: seq<RefPiece>, chapPath: string, refs: Registry): Resolved
  {
    if ps == [] then Resolved("", [])
    else
      var rest := ResolvePieces(ps[1..], chapPath, refs);
      Resolved(Replacement(ps[0], chapPath, refs) + rest.text, WarningOf(ps[0], refs) + rest.warnings)
  }

  /** `t` holds `{{` at position `j`. */
  predicate OpensAt(t: string, j: int)
  {
    0 <= j && j + 1 < |t| && t[j] == '{' && t[j + 1] == '{'
  }

  /** No `{{` anywhere in `t`. */
  predicate NoDoubleBrace(t: string)
  {
    forall j :: 0 <= j < |t| ==> !OpensAt(t, j)
  }

  /** `find_and_replace_refs(s, chap_path, refs)`. */
  function FindAndReplaceRefs(s: string, chapPath: string, refs: Registry): Resolved
  {
    ResolvePieces(RefTokenize(s, 0), chapPath, refs)
  }

  /**
   * The warnings of a whole call: each names a label missing from the
   * registry, every reference to a missing label has its own label warned
   * about, there are exactly as many warnings as such references, and a
   * missing label is named once per reference to it.
   */
  lemma UnknownWarnings(s: string, chapPath: string, refs: Registry)
    ensures var r, ps := FindAndReplaceRefs(s, chapPath, refs), RefTokenize(s, 0);
      (forall w :: w in r.warnings ==> w.UnknownReference? && w.lbl !in refs)
      && (forall k :: 0 <= k < |ps| && ps[k].Ref? && ps[k].lbl !in refs ==> UnknownReference(ps[k].lbl) in r.warnings)
      && |r.warnings| == UnknownCount(ps, refs)
      && (forall l :: l !in refs ==> multiset(r.warnings)[UnknownReference(l)] == RefsTo(ps, l))
  {
    var ps := RefTokenize(s, 0);
    WarningsAreUnknownRefs(ps, chapPath, refs);
    UnknownRefsAreWarned(ps, chapPath, refs);
    forall l | l !in refs
      ensures multiset(FindAndReplaceRefs(s, chapPath, refs).warnings)[UnknownReference(l)] == RefsTo(ps, l)
    {
      WarningsPerLabel(ps, chapPath, refs, l);
    }
  }

  /** A text without `{{` comes back unchanged, with no warning. */
  lemma PlainTextUnchanged(s: string, chapPath: string, refs: Registry)
    requires NoDoubleBrace(s)
    ensures FindAndReplaceRefs(s, chapPath, refs) == Resolved(s, [])
  {
    NoMarkersUnchanged(s, 0, chapPath, refs);
    assert s[0..] == s;
  }

  // ---------------------------------------------------------------------------
  // Properties

  /** The scanner loses and invents nothing: the pieces spell out the text. */
  lemma {:induction false} RefTokenizeRoundTrip(s: string, i: nat)
    requires i <= |s|
    ensures RefUnparse(RefTokenize(s, i)) == s[i..]
    decreases |s| - i
  {
    if i < |s| {
      var p, next := RefFirstPiece(s, i);
      RefTokenizeRoundTrip(s, next);
      RefUnparseStep(s, i, next, p, RefTokenize(s, next), RefTokenize(s, i));
    }
  }

  /** One step of the round trip: a piece spanning `s[i..next]` followed by pieces spelling `s[next..]`. */
  lemma RefUnparseStep(s: string, i: nat, next: nat, p: RefPiece, rest: seq<RefPiece>, ps: seq<RefPiece>)
    requires i < next <= |s| && s[i..next] == RefSource(p)
    requires RefUnparse(rest) == s[next..] && ps == [p] + rest
    ensures RefUnparse(ps) == s[i..]
  {
    RefUnparseCons(p, rest);
    assert s[i..] == s[i..next] + s[next..];
  }

  /** The first piece of the scan at `i`, the text it spans, and where the scan resumes. */
  lemma RefFirstPiece(s: string, i: nat) returns (p: RefPiece, next: nat)
    requires i < |s|
    ensures i < next <= |s| && s[i..next] == RefSource(p)
    ensures RefTokenize(s, i) == [p] + RefTokenize(s, next)
  {
    RefTokenizeUnfold(s, i);
    match ParseRef(s, i)
    case Some((r, e)) =>
      p, next := r, e;
    case None =>
      p, next := Char(s[i]), i + 1;
  }

  /** The text of a non-empty sequence of pieces: the head's text, then the rest. */
  lemma RefUnparseCons(p: RefPiece, rest: seq<RefPiece>)
    ensures RefUnparse([p] + rest) == RefSource(p) + RefUnparse(rest)
  {
    assert ([p] + rest)[1..] == rest;
  }

  /**
   * A well-formed marker on its own resolves to a link to the registered
   * label: `ref:` shows the numbered name, `tref:` the title or, without one,
   * the numbered name; an unknown label becomes exactly `**[??]**` with one
   * warning naming it.
   */
  lemma ResolveMarker(kind: RefKind, space: string, lbl: string, chapPath: string, refs: Registry)
    requires Canonical(space, lbl)
    ensures var r := FindAndReplaceRefs("{{" + Keyword(kind) + space + lbl + "}}", chapPath, refs);
      (lbl in refs ==>
        r.warnings == []
        && r.text == "[" + LinkText(kind, refs[lbl]) + "](" + Paths.ComputeRelPath(chapPath, refs[lbl].path) + "#" + lbl + ")")
      && (lbl in refs && kind == NumRef ==> LinkText(kind, refs[lbl]) == refs[lbl].numName)
      && (lbl in refs && kind == TitleRef ==>
            LinkText(kind, refs[lbl]) == if refs[lbl].title.Some? then refs[lbl].title.value else refs[lbl].numName)
      && (lbl !in refs ==> r.text == "**[??]**" && r.warnings == [UnknownReference(lbl)])
  {
    var x := Ref(kind, space, lbl);
    AloneResolves(x, chapPath, refs);
  }

  /** A well-formed marker on its own is scanned as exactly one reference. */
  lemma TokenizeMarker(kind: RefKind, space: string, lbl: string)
    requires Canonical(space, lbl)
    ensures RefTokenize(RefSource(Ref(kind, space, lbl)), 0) == [Ref(kind, space, lbl)]
  {
    var s := RefSource(Ref(kind, space, lbl));
    assert s[0..|s|] == s;
    MarkerAt(s, 0, kind, space, lbl);
    OnlyPiece(s, Ref(kind, space, lbl));
  }

  /** A well-formed marker written at `i` is read back there, whatever follows it. */
  lemma MarkerAt(s: string, i: nat, kind: RefKind, space: string, lbl: string)
    requires Canonical(space, lbl) && HasAt(s, i, RefSource(Ref(kind, space, lbl)))
    ensures ParseRef(s, i) == Some((Ref(kind, space, lbl), i + |RefSource(Ref(kind, space, lbl))|))
  {
    var m := RefSource(Ref(kind, space, lbl));
    var j := 2 + |Keyword(kind)|;
    var p := j + |space|;
    var k := p + |lbl|;
    assert MarkerKind(s, i) == Some(kind) && SkipSpace(s, i + j) == i + p && FindRefEnd(s, i + p) == Some(i + k)
        && s[i + j..i + p] == space && s[i + p..i + k] == lbl && |m| == k + 2 by {
      MarkerSlices(kind, space, lbl);
      KindAt(s, i, m, kind);
      PartsAt(s, i, m, j, p, k, space, lbl);
    }
    ParseAt(s, i, kind, j, p, k, space, lbl);
  }

  lemma ParseAt(s: string, i: nat, kind: RefKind, j: nat, p: nat, k: nat, space: string, lbl: string)
    requires MarkerKind(s, i) == Some(kind) && j == 2 + |Keyword(kind)| && j <= p <= k && i + k + 2 <= |s|
    requires SkipSpace(s, i + j) == i + p && FindRefEnd(s, i + p) == Some(i + k)
    requires s[i + j..i + p] == space && s[i + p..i + k] == lbl
    ensures ParseRef(s, i) == Some((Ref(kind, space, lbl), i + k + 2))
  {
    ParseRefOf(s, i, kind, i + p, i + k);
  }

  lemma KindAt(s: string, i: nat, m: string, kind: RefKind)
    requires HasAt(s, i, m) && 2 + |Keyword(kind)| <= |m| && m[..2 + |Keyword(kind)|] == "{{" + Keyword(kind)
    ensures MarkerKind(s, i) == Some(kind)
  {
    Within(s, i, m, 0, 2 + |Keyword(kind)|);
    assert m[0..2 + |Keyword(kind)|] == m[..2 + |Keyword(kind)|];
    KindOfMarker(s, i, kind);
  }

  lemma PartsAt(s: string, i: nat, m: string, j: nat, p: nat, k: nat, space: string, lbl: string)
    requires HasAt(s, i, m) && j + |space| == p && p + |lbl| == k && |m| == k + 2
    requires m[j..p] == space && m[p..k] == lbl && m[k..] == "}}" && Canonical(space, lbl)
    ensures SkipSpace(s, i + j) == i + p && FindRefEnd(s, i + p) == Some(i + k)
    ensures s[i + j..i + p] == space && s[i + p..i + k] == lbl
  {
    Within(s, i, m, j, p);
    Within(s, i, m, p, k);
    Within(s, i, m, k, k + 2);
    assert m[k..k + 2] == m[k..];
    SpaceEnd(s, i + j, i + p, i + k, space, lbl);
    LabelEnd(s, i + p, i + k, lbl);
  }

  /** Text holding `m` at `i` holds each slice of `m` at the same offset. */
  lemma Within(s: string, i: nat, m: string, a: nat, b: nat)
    requires HasAt(s, i, m) && a <= b <= |m|
    ensures s[i + a..i + b] == m[a..b]
  {
    var w := s[i..i + |m|];
    assert forall t :: 0 <= t < b - a ==> w[a..b][t] == s[i + a..i + b][t];
  }

  /** The parts of a marker's text, by position. */
  lemma MarkerSlices(kind: RefKind, space: string, lbl: string)
    ensures var s, j := RefSource(Ref(kind, space, lbl)), 2 + |Keyword(kind)|;
      var p, k := j + |space|, j + |space| + |lbl|;
      |s| == k + 2 && s[..j] == "{{" + Keyword(kind) && s[j..p] == space && s[p..k] == lbl && s[k..] == "}}"
  {
    Slices("{{" + Keyword(kind), space, lbl, "}}");
  }

  /** The whitespace after the keyword ends where the label starts. */
  lemma SpaceEnd(s: string, j: nat, p: nat, k: nat, space: string, lbl: string)
    requires j + |space| == p && p + |lbl| == k && k + 2 <= |s|
    requires s[j..p] == space && s[p..k] == lbl && s[k..k + 2] == "}}"
    requires forall m :: 0 <= m < |space| ==> IsWhitespace(space[m])
    requires lbl == "" || !IsWhitespace(lbl[0])
    ensures SkipSpace(s, j) == p
  {
    forall m | j <= m < p
      ensures IsWhitespace(s[m])
    {
      assert s[m] == space[m - j];
    }
    if lbl == "" {
      assert s[p] == s[k..k + 2][0];
    } else {
      assert s[p] == s[p..k][0];
    }
    SkipSpaceExact(s, j, p);
  }

  /** The four parts of a text, by position. */
  lemma Slices(a: string, b: string, c: string, d: string)
    ensures var s, j, p := a + b + c + d, |a|, |a| + |b|;
      var k := p + |c|;
      |s| == k + |d| && s[..j] == a && s[j..p] == b && s[p..k] == c && s[k..] == d
  {
  }

  /** The label of a marker ends at the `}}` that follows it. */
  lemma LabelEnd(s: string, p: nat, k: nat, lbl: string)
    requires p + |lbl| == k && k + 2 <= |s| && s[p..k] == lbl && s[k..k + 2] == "}}"
    requires '\n' !in lbl && ClosesCleanly(lbl)
    ensures FindRefEnd(s, p) == Some(k)
  {
    forall m | p <= m < k
      ensures s[m] != '\n'
    {
      assert s[m] == lbl[m - p];
    }
    forall m | p <= m < k
      ensures !ClosesAt(s, m)
    {
      assert s[m] == lbl[m - p];
      if m + 1 < k {
        assert s[m + 1] == lbl[m + 1 - p];
        assert !ClosesAt(lbl, m - p);
      }
    }
    assert s[k] == s[k..k + 2][0] && s[k + 1] == s[k..k + 2][1];
    FindRefEndExact(s, p, k);
  }

  /** `ParseRef` from the results of its three scans. */
  lemma ParseRefOf(s: string, i: nat, kind: RefKind, p: nat, k: nat)
    requires i + 2 + |Keyword(kind)| <= |s| && MarkerKind(s, i) == Some(kind)
    requires SkipSpace(s, i + 2 + |Keyword(kind)|) == p && FindRefEnd(s, p) == Some(k)
    ensures ParseRef(s, i) == Some((Ref(kind, s[i + 2 + |Keyword(kind)|..p], s[p..k]), k + 2))
  {
    MarkerRestOf(s, i, kind, p, k);
  }

  lemma MarkerRestOf(s: string, i: nat, kind: RefKind, p: nat, k: nat)
    requires HasAt(s, i, "{{" + Keyword(kind))
    requires SkipSpace(s, i + 2 + |Keyword(kind)|) == p && FindRefEnd(s, p) == Some(k)
    ensures MarkerRest(s, i, kind) == Some((Ref(kind, s[i + 2 + |Keyword(kind)|..p], s[p..k]), k + 2))
  {
  }

  /** A text the parser takes whole is a single piece. */
  lemma OnlyPiece(s: string, r: RefPiece)
    requires 0 < |s| && ParseRef(s, 0) == Some((r, |s|))
    ensures RefTokenize(s, 0) == [r]
  {
    RefTokenizeUnfold(s, 0);
  }

  lemma FindRefEndExact(s: string, p: nat, k: nat)
    requires p <= k && ClosesAt(s, k)
    requires forall j :: p <= j < k ==> s[j] != '\n'
    requires forall j :: p <= j < k ==> !ClosesAt(s, j)
    ensures FindRefEnd(s, p) == Some(k)
  {
    if FindRefEnd(s, p).None? {
      assert false;
    }
  }

  lemma SkipSpaceExact(s: string, j: nat, p: nat)
    requires j <= p <= |s|
    requires forall m :: j <= m < p ==> IsWhitespace(s[m])
    requires p < |s| && !IsWhitespace(s[p])
    ensures SkipSpace(s, j) == p
    decreases p - j
  {
    if j < p {
      SkipSpaceExact(s, j + 1, p);
    }
  }

  /**
   * A well-formed marker between two stretches of text without `{{` is
   * rewritten exactly as it would be on its own; the text around it is kept
   * as it is and raises no warning.
   */
  lemma ReferenceInText(pre: string, post: string, kind: RefKind, space: string, lbl: string, chapPath: string, refs: Registry)
    requires Canonical(space, lbl) && NoDoubleBrace(pre + "{") && NoDoubleBrace(post)
    ensures var alone := FindAndReplaceRefs(RefSource(Ref(kind, space, lbl)), chapPath, refs);
      FindAndReplaceRefs(pre + RefSource(Ref(kind, space, lbl)) + post, chapPath, refs)
        == Resolved(pre + alone.text + post, alone.warnings)
  {
    var x := Ref(kind, space, lbl);
    var m := RefSource(x);
    var s := pre + m + post;
    var a, b := |pre|, |pre| + |m|;
    assert HasAt(s, a, m) && s[..a] == pre && s[b..] == post && m[0] == '{' by {
      assert s[a..b] == m;
    }
    assert forall j :: 0 <= j < a ==> !OpensAt(s, j) by {
      BraceFreeBefore(pre, m, post);
    }
    assert forall j :: b <= j ==> !OpensAt(s, j) by {
      BraceFreeAfter(s, b, post);
    }
    MarkerFirst(s, a, x);
    MarkerInText(s, a, b, x, chapPath, refs);
    AloneResolves(x, chapPath, refs);
  }
  /**
   * A marker amid text without `{{`: a registered label becomes its link and an
   * unknown one the placeholder with one warning; the text around it is kept.
   */
  lemma ReferenceInTextResolves(pre: string, post: string, kind: RefKind, space: string, lbl: string,
                                chapPath: string, refs: Registry)
    requires Canonical(space, lbl) && NoDoubleBrace(pre + "{") && NoDoubleBrace(post)
    ensures var r := FindAndReplaceRefs(pre + RefSource(Ref(kind, space, lbl)) + post, chapPath, refs);
      (lbl in refs ==>
         r == Resolved(pre + ("[" + LinkText(kind, refs[lbl]) + "](" + Paths.ComputeRelPath(chapPath, refs[lbl].path)
                              + "#" + lbl + ")") + post, []))
      && (lbl !in refs ==> r == Resolved(pre + "**[??]**" + post, [UnknownReference(lbl)]))
  {
    ReferenceInText(pre, post, kind, space, lbl, chapPath, refs);
    AloneResolves(Ref(kind, space, lbl), chapPath, refs);
  }


  /**
   * The scan of a text holding a well-formed marker at `a` and no other `{{`:
   * the text before it, its replacement, the text after it.
   */
  lemma MarkerInText(s: string, a: nat, b: nat, x: RefPiece, chapPath: string, refs: Registry)
    requires a < b <= |s| && RefTokenize(s, a) == [x] + RefTokenize(s, b)
    requires forall j :: 0 <= j < a ==> !OpensAt(s, j)
    requires forall j :: b <= j ==> !OpensAt(s, j)
    ensures ResolvePieces(RefTokenize(s, 0), chapPath, refs)
      == Resolved(s[..a] + Replacement(x, chapPath, refs) + s[b..], WarningOf(x, refs))
  {
    var r0, ra, rb := ResolvePieces(RefTokenize(s, 0), chapPath, refs),
      ResolvePieces(RefTokenize(s, a), chapPath, refs), ResolvePieces(RefTokenize(s, b), chapPath, refs);
    assert r0 == Resolved(s[0..a] + ra.text, ra.warnings) by {
      ResolveUpTo(s, 0, a, chapPath, refs);
    }
    assert ra == Resolved(Replacement(x, chapPath, refs) + rb.text, WarningOf(x, refs) + rb.warnings) by {
      ResolveCons(x, RefTokenize(s, b), chapPath, refs);
    }
    assert rb == Resolved(s[b..], []) by {
      NoMarkersUnchanged(s, b, chapPath, refs);
    }
    Assemble(r0, ra, rb, s[0..a], Replacement(x, chapPath, refs), WarningOf(x, refs));
    assert s[0..a] == s[..a];
  }

  /** Three stretches of a scan put together. */
  lemma Assemble(r0: Resolved, ra: Resolved, rb: Resolved, before: string, replaced: string, w: seq<Warning>)
    requires r0 == Resolved(before + ra.text, ra.warnings)
    requires ra == Resolved(replaced + rb.text, w + rb.warnings) && rb.warnings == []
    ensures r0 == Resolved(before + replaced + rb.text, w)
  {
    assert before + (replaced + rb.text) == before + replaced + rb.text;
    assert w + [] == w;
  }

  /** No `{{` starts in the rest of a text when that rest holds none. */
  lemma BraceFreeAfter(s: string, b: nat, post: string)
    requires b <= |s| && s[b..] == post && NoDoubleBrace(post)
    ensures forall j :: b <= j ==> !OpensAt(s, j)
  {
    forall j | b <= j
      ensures !OpensAt(s, j)
    {
      if j + 1 < |s| {
        assert !OpensAt(post, j - b);
        assert s[j] == post[j - b] && s[j + 1] == post[j + 1 - b];
      }
    }
  }

  /** No `{{` starts inside `pre` when what follows it starts with `{` but `pre + "{"` holds none. */
  lemma BraceFreeBefore(pre: string, m: string, post: string)
    requires NoDoubleBrace(pre + "{") && 0 < |m| && m[0] == '{'
    ensures forall j :: 0 <= j < |pre| ==> !OpensAt(pre + m + post, j)
  {
    var s := pre + m + post;
    forall j | 0 <= j < |pre|
      ensures !OpensAt(s, j)
    {
      assert !OpensAt(pre + "{", j);
      assert (pre + "{")[j] == s[j] && (pre + "{")[j + 1] == s[j + 1];
    }
  }

  /** A well-formed marker at `i` is the first piece of the scan from `i`. */
  lemma MarkerFirst(s: string, i: nat, x: RefPiece)
    requires x.Ref? && Canonical(x.space, x.lbl) && HasAt(s, i, RefSource(x))
    ensures RefTokenize(s, i) == [x] + RefTokenize(s, i + |RefSource(x)|)
  {
    MarkerAt(s, i, x.kind, x.space, x.lbl);
    RefTokenizeUnfold(s, i);
  }

  /** Before the first `{{` at or after `i`, the scan copies the text through. */
  lemma ResolveUpTo(s: string, i: nat, e: nat, chapPath: string, refs: Registry)
    requires i <= e <= |s|
    requires forall j :: i <= j < e ==> !OpensAt(s, j)
    ensures var after := ResolvePieces(RefTokenize(s, e), chapPath, refs);
      ResolvePieces(RefTokenize(s, i), chapPath, refs) == Resolved(s[i..e] + after.text, after.warnings)
  {
    CharsCopied(s, i, e, chapPath, refs);
    CopiedThrough((k: nat) => if k <= |s| then ResolvePieces(RefTokenize(s, k), chapPath, refs) else Resolved("", []), s, i, e);
  }

  lemma CharsCopied(s: string, i: nat, e: nat, chapPath: string, refs: Registry)
    requires i <= e <= |s|
    requires forall j :: i <= j < e ==> !OpensAt(s, j)
    ensures forall k :: i <= k < e ==>
      var after := ResolvePieces(RefTokenize(s, k + 1), chapPath, refs);
      ResolvePieces(RefTokenize(s, k), chapPath, refs) == Resolved([s[k]] + after.text, after.warnings)
  {
    forall k | i <= k < e
      ensures var after := ResolvePieces(RefTokenize(s, k + 1), chapPath, refs);
        ResolvePieces(RefTokenize(s, k), chapPath, refs) == Resolved([s[k]] + after.text, after.warnings)
    {
      ResolveChar(s, k, chapPath, refs);
    }
  }

  /** Results that each copy one character of `s[i..e]` in front of the next one copy all of it. */
  lemma {:induction false} CopiedThrough(f: nat -> Resolved, s: string, i: nat, e: nat)
    requires i <= e <= |s|
    requires forall k :: i <= k < e ==> f(k) == Resolved([s[k]] + f(k + 1).text, f(k + 1).warnings)
    ensures f(i) == Resolved(s[i..e] + f(e).text, f(e).warnings)
    decreases e - i
  {
    if i < e {
      CopiedThrough(f, s, i + 1, e);
      assert s[i..e] == [s[i]] + s[i + 1..e];
    }
  }

  /** Where no `{{` starts, the scan copies one character and moves on. */
  lemma ResolveChar(s: string, i: nat, chapPath: string, refs: Registry)
    requires i < |s| && !OpensAt(s, i)
    ensures var after := ResolvePieces(RefTokenize(s, i + 1), chapPath, refs);
      ResolvePieces(RefTokenize(s, i), chapPath, refs) == Resolved([s[i]] + after.text, after.warnings)
  {
    assert !HasAt(s, i, "{{") by {
      if i + 2 <= |s| { assert s[i..i + 2][0] == s[i] && s[i..i + 2][1] == s[i + 1]; }
    }
    RefTokenizeUnfold(s, i);
    ResolveCons(Char(s[i]), RefTokenize(s, i + 1), chapPath, refs);
  }

  /** Resolving a piece followed by others: its replacement and warning come first. */
  lemma ResolveCons(x: RefPiece, rest: seq<RefPiece>, chapPath: string, refs: Registry)
    ensures var r := ResolvePieces(rest, chapPath, refs);
      ResolvePieces([x] + rest, chapPath, refs)
        == Resolved(Replacement(x, chapPath, refs) + r.text, WarningOf(x, refs) + r.warnings)
  {
    assert ([x] + rest)[1..] == rest;
  }

  /** A well-formed marker on its own becomes its replacement, with its warning. */
  lemma AloneResolves(x: RefPiece, chapPath: string, refs: Registry)
    requires x.Ref? && Canonical(x.space, x.lbl)
    ensures FindAndReplaceRefs(RefSource(x), chapPath, refs) == Resolved(Replacement(x, chapPath, refs), WarningOf(x, refs))
  {
    TokenizeMarker(x.kind, x.space, x.lbl);
    ResolveCons(x, [], chapPath, refs);
    assert [x] + [] == [x];
  }

  /** Text with no `{{` in it passes through unchanged and raises no warning. */
  lemma NoMarkersUnchanged(s: string, i: nat, chapPath: string, refs: Registry)
    requires i <= |s|
    requires forall j :: i <= j ==> !OpensAt(s, j)
    ensures ResolvePieces(RefTokenize(s, i), chapPath, refs) == Resolved(s[i..], [])
  {
    ResolveUpTo(s, i, |s|, chapPath, refs);
    assert s[i..|s|] + "" == s[i..];
  }

  /** Number of reference pieces whose label is not registered. */
  function UnknownCount(ps: seq<RefPiece>, refs: Registry): nat
  {
    if ps == [] then 0 else (if ps[0].Ref? && ps[0].lbl !in refs then 1 else 0) + UnknownCount(ps[1..], refs)
  }

  /**
   * Warnings are raised for unknown labels only, as many as there are
   * references to unknown labels (the rendering of each is `ReplacementShape`).
   */
  lemma {:induction false} WarningsAreUnknownRefs(ps: seq<RefPiece>, chapPath: string, refs: Registry)
    ensures var r := ResolvePieces(ps, chapPath, refs);
      (forall w :: w in r.warnings ==> w.UnknownReference? && w.lbl !in refs)
      && |r.warnings| == UnknownCount(ps, refs)
    decreases |ps|
  {
    if ps != [] {
      WarningsAreUnknownRefs(ps[1..], chapPath, refs);
    }
  }

  /** Number of reference pieces whose label is `l`. */
  function RefsTo(ps: seq<RefPiece>, l: string): nat
  {
    if ps == [] then 0 else (if ps[0].Ref? && ps[0].lbl == l then 1 else 0) + RefsTo(ps[1..], l)
  }

  /** A missing label is warned about once for each reference to it. */
  lemma {:induction false} WarningsPerLabel(ps: seq<RefPiece>, chapPath: string, refs: Registry, l: string)
    requires l !in refs
    ensures multiset(ResolvePieces(ps, chapPath, refs).warnings)[UnknownReference(l)] == RefsTo(ps, l)
    decreases |ps|
  {
    if ps != [] {
      WarningsPerLabel(ps[1..], chapPath, refs, l);
      var rest := ResolvePieces(ps[1..], chapPath, refs);
      assert ResolvePieces(ps, chapPath, refs).warnings == WarningOf(ps[0], refs) + rest.warnings;
    }
  }

  /** Every reference to an unknown label raises a warning naming that label. */
  lemma {:induction false} UnknownRefsAreWarned(ps: seq<RefPiece>, chapPath: string, refs: Registry)
    ensures var r := ResolvePieces(ps, chapPath, refs);
      forall k :: 0 <= k < |ps| && ps[k].Ref? && ps[k].lbl !in refs ==> UnknownReference(ps[k].lbl) in r.warnings
    decreases |ps|
  {
    if ps != [] {
      UnknownRefsAreWarned(ps[1..], chapPath, refs);
      var r := ResolvePieces(ps, chapPath, refs);
      var rest := ResolvePieces(ps[1..], chapPath, refs);
      assert r.warnings == WarningOf(ps[0], refs) + rest.warnings;
      forall k | 0 <= k < |ps| && ps[k].Ref? && ps[k].lbl !in refs
        ensures UnknownReference(ps[k].lbl) in r.warnings
      {
        if k == 0 {
          assert r.warnings[0] == UnknownReference(ps[0].lbl);
        } else {
          assert ps[k] == ps[1..][k - 1];
          assert UnknownReference(ps[k].lbl) in rest.warnings;
        }
      }
    }
  }
}
