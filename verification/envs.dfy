/**
 * `find_and_replace_envs`: one pass of one environment kind over one chapter.
 *
 * The regular expression `\{\{KEY\}\}(\{(?P<label>.*?)\})?(\[(?P<title>.*?)\])?`
 * is replaced by a scanner (`Tokenize`) that cuts the text, left to right and
 * without overlap, into literal characters and declarations. The numbering and
 * the registry updates are a fold (`Process`) over those pieces, and the
 * imperative method `FindAndReplaceEnvs` is proved to compute that fold.
 */
module Envs {
  import opened Text

  /** An environment kind: the marker key, the displayed name, the emphasis delimiter. */
  datatype Env = Env(key: string, name: string, emph: string)

  /** What a registered label links to. */
  datatype LabelInfo = LabelInfo(numName: string, path: string, title: Option<string>)

  /** Labels to the environments that declared them. */
  type Registry = map<string, LabelInfo>

  /** The two non-fatal diagnostics the preprocessor logs. */
  datatype Warning =
    | DuplicateLabel(numName: string, lbl: string)
    | UnknownReference(lbl: string)

  /** A piece of scanned text: one literal character, or one declaration marker. */
  datatype EnvPiece = Lit(c: char) | Decl(lbl: Option<string>, title: Option<string>)

  // ---------------------------------------------------------------------------
  // Scanner

  /** The fixed part of a declaration marker, `{{key}}`. */
  function Opener(key: string): string
  {
    "{{" + key + "}}"
  }

  /** An optional group as written: `open`, the capture, `close`; nothing when absent. */
  function Wrap(open: char, c: Option<string>, close: char): string
  {
    match c
    case None => ""
    case Some(x) => [open] + x + [close]
  }

  /** The text a piece was scanned from. */
  function Source(key: string, p: EnvPiece): string
  {
    match p
    case Lit(c) => [c]
    case Decl(lbl, title) =>
      Opener(key)
      + (match lbl case None => "" case Some(l) => "{" + l + "}")
      + (match title case None => "" case Some(t) => "[" + t + "]")
  }

  /** A declaration's text is its opener followed by its two optional groups. */
  lemma SourceParts(key: string, d: EnvPiece)
    requires d.Decl?
    ensures Source(key, d) == Opener(key) + Wrap('{', d.lbl, '}') + Wrap('[', d.title, ']')
  {
  }

  /** The text a sequence of pieces was scanned from. */
  function Unparse(key: string, ps: seq<EnvPiece>): string
  {
    if ps == [] then "" else Source(key, ps[0]) + Unparse(key, ps[1..])
  }

  /**
   * The lazy `.*?` followed by `close`: the first `close` at or after `from`,
   * provided no line break comes before it (`.` does not match a line break).
   */
  function FindClose(s: string, from: nat, close: char): (k: Option<nat>)
    requires close != '\n'
    ensures k.Some? ==> from <= k.value < |s| && s[k.value] == close
    ensures k.Some? ==> forall j :: from <= j < k.value ==> s[j] != close && s[j] != '\n'
    ensures k.None? ==> forall j :: from <= j < |s| && s[j] == close ==> '\n' in s[from..j]
    decreases |s| - from
  {
    if from >= |s| then None
    else if s[from] == close then Some(from)
    else if s[from] == '\n' then None
    else
      var k := FindClose(s, from + 1, close);
      assert k.None? ==> forall j :: from <= j < |s| && s[j] == close ==> '\n' in s[from..j] by {
        forall j | from < j < |s| && s[j] == close && k.None?
          ensures '\n' in s[from..j]
        {
          var m :| 0 <= m < |s[from + 1..j]| && s[from + 1..j][m] == '\n';
          assert s[from..j][m + 1] == '\n';
        }
      }
      k
  }

  /**
   * An optional group `open capture close` at `j`, as `(\{(?P<label>.*?)\})?`:
   * the capture and the position after the group.
   */
  function Group(s: string, j: nat, open: char, close: char): (r: (Option<string>, nat))
    requires j <= |s| && close != '\n'
    ensures j <= r.1 <= |s|
    ensures r.0.None? ==> r.1 == j
    ensures r.0.None? ==> forall k :: j < k < |s| && s[j] == open && s[k] == close ==> '\n' in s[j + 1..k]
    ensures r.0.Some? ==> s[j..r.1] == [open] + r.0.value + [close]
    ensures r.0.Some? ==> close !in r.0.value && '\n' !in r.0.value
  {
    if j < |s| && s[j] == open then
      match FindClose(s, j + 1, close)
      case Some(k) =>
        assert s[j..k + 1] == [open] + s[j + 1..k] + [close];
        (Some(s[j + 1..k]), k + 1)
      case None => (None, j)
    else (None, j)
  }

  /** The declaration marker starting at `i`, if any, and the position after it. */
  function ParseDecl(s: string, i: nat, key: string): (r: Option<(EnvPiece, nat)>)
    requires i <= |s|
    ensures r.None? <==> !(i + |Opener(key)| <= |s| && s[i..i + |Opener(key)|] == Opener(key))
    ensures r.Some? ==> r.value.0.Decl? && i < r.value.1 <= |s|
    ensures r.Some? ==> s[i..r.value.1] == Source(key, r.value.0)
  {
    var open := Opener(key);
    if i + |open| <= |s| && s[i..i + |open|] == open then
      var j := i + |open|;
      var (lbl, j1) := Group(s, j, '{', '}');
      var (title, j2) := Group(s, j1, '[', ']');
      var d := Decl(lbl, title);
      assert s[i..j2] == s[i..j] + s[j..j1] + s[j1..j2];
      Some((d, j2))
    else None
  }

  /** Left-to-right, non-overlapping scan of `s[i..]` for declarations of `key`. */
  function Tokenize(s: string, key: string, i: nat): (r: seq<EnvPiece>)
    requires i <= |s|
    ensures |r| <= |s| - i && (r == [] <==> i == |s|)
    decreases |s| - i
  {
    if i == |s| then []
    else
      match ParseDecl(s, i, key)
      case Some((d, end)) => [d] + Tokenize(s, key, end)
      case None => [Lit(s[i])] + Tokenize(s, key, i + 1)
  }

  // ---------------------------------------------------------------------------
  // Rendering and numbering

  /** `"{name} {prefix}{ctr}"`, the numbered name, e.g. `Proposition 1.2.1`. */
  function NumberedName(env: Env, prefix: string, n: nat): string
  {
    env.name + " " + prefix + DecimalString(n)
  }

  /** The numbered name is the name, a space and the prefix, then digits that read back as the counter. */
  lemma NumberedNameDigits(env: Env, prefix: string, n: nat)
    ensures var r, head := NumberedName(env, prefix, n), env.name + " " + prefix;
      |head| < |r| && r[..|head|] == head
      && AllDigits(r[|head|..]) && DigitsValue(r[|head|..]) == n
  {
    var head := env.name + " " + prefix;
    DecimalStringValue(n);
    assert (head + DecimalString(n))[|head|..] == DecimalString(n);
  }

  /** Within one kind and prefix, different counters give different numbered names. */
  lemma NumberedNamesDistinct(env: Env, prefix: string, n: nat, m: nat)
    requires NumberedName(env, prefix, n) == NumberedName(env, prefix, m)
    ensures n == m
  {
    NumberedNameDigits(env, prefix, n);
    NumberedNameDigits(env, prefix, m);
  }

  /** The anchor line emitted when a label was captured. */
  function Anchor(lbl: Option<string>): string
  {
    match lbl
    case None => ""
    case Some(l) => "<a name=\"" + l + "\"></a>\n"
  }

  /** There is an anchor exactly when a label was captured, and the label can be read back from it. */
  lemma AnchorLabel(lbl: Option<string>)
    ensures lbl.None? <==> Anchor(lbl) == ""
    ensures lbl.Some? ==> |Anchor(lbl)| == |lbl.value| + 16 && Anchor(lbl)[9..9 + |lbl.value|] == lbl.value
  {
  }

  /** The emphasised header, with the title in parentheses when one was captured. */
  function Header(env: Env, prefix: string, n: nat, title: Option<string>): string
  {
    match title
    case None => env.emph + NumberedName(env, prefix, n) + "." + env.emph
    case Some(t) => env.emph + NumberedName(env, prefix, n) + " (" + t + ")." + env.emph
  }

  /**
   * The header is emphasised, opens with the numbered name and closes with a
   * period; between the two stands the title in parentheses, or nothing.
   */
  lemma HeaderShape(env: Env, prefix: string, n: nat, title: Option<string>)
    ensures var r, open, close := Header(env, prefix, n, title), env.emph + NumberedName(env, prefix, n), "." + env.emph;
      |open| + |close| <= |r| && r[..|open|] == open && r[|r| - |close|..] == close
      && (title.Some? ==> r[|open|..|r| - |close|] == " (" + title.value + ")")
      && (title.None? ==> |r| == |open| + |close|)
  {
    var open, close := env.emph + NumberedName(env, prefix, n), "." + env.emph;
    match title
    case None =>
      assert Header(env, prefix, n, title) == open + close;
    case Some(t) =>
      assert Header(env, prefix, n, title) == open + " (" + t + ")" + close;
  }

  /** The replacement of one piece, a declaration being given the number `n`. */
  function Render(env: Env, prefix: string, n: nat, p: EnvPiece): string
  {
    match p
    case Lit(c) => [c]
    case Decl(lbl, title) => Anchor(lbl) + Header(env, prefix, n, title)
  }

  /** The state the replacement closure threads through a scan. */
  datatype EnvState = EnvState(out: string, ctr: nat, refs: Registry, warnings: seq<Warning>)

  /**
   * The replacement closure on one match, given the counter, registry and
   * warnings so far: bump the counter, register a first-seen label or warn
   * about a duplicate one. The result's `out` is the replacement text, the
   * anchor and the header.
   */
  function Replace(env: Env, prefix: string, path: string, ctr: nat, refs: Registry, warnings: seq<Warning>,
                   lbl: Option<string>, title: Option<string>): (r: EnvState)
  {
    var n := ctr + 1;
    var name := NumberedName(env, prefix, n);
    var text := Anchor(lbl) + Header(env, prefix, n, title);
    match lbl
    case None => EnvState(text, n, refs, warnings)
    case Some(l) =>
      if l in refs then EnvState(text, n, refs, warnings + [DuplicateLabel(name, l)])
      else EnvState(text, n, refs[l := LabelInfo(name, path, title)], warnings)
  }

  /** One piece of the scan: a character is copied, a marker is replaced by the closure's text. */
  function Step(env: Env, prefix: string, path: string, st: EnvState, p: EnvPiece): (r: EnvState)
  {
    match p
    case Lit(c) => st.(out := st.out + [c])
    case Decl(lbl, title) =>
      var r := Replace(env, prefix, path, st.ctr, st.refs, st.warnings, lbl, title);
      r.(out := st.out + r.out)
  }

  /** `Step` over a sequence of pieces, from the left. */
  function Process(env: Env, prefix: string, path: string, st: EnvState, ps: seq<EnvPiece>): EnvState
    decreases |ps|
  {
    if ps == [] then st
    else Process(env, prefix, path, Step(env, prefix, path, st, ps[0]), ps[1..])
  }

  /** The whole of `find_and_replace_envs`: a fresh counter, the given registry. */
  function ReplaceEnvs(s: string, prefix: string, path: string, env: Env, refs: Registry): (r: EnvState)
    ensures forall l :: l in refs ==> l in r.refs && r.refs[l] == refs[l]
    ensures r.refs.Keys == refs.Keys + Labels(Tokenize(s, env.key, 0))
  {
    var st, ps := EnvState("", 0, refs, []), Tokenize(s, env.key, 0);
    RegistryGrows(env, prefix, path, st, ps);
    Process(env, prefix, path, st, ps)
  }

  /** The scanner takes one piece off the front of the remaining text. */
  lemma TokenizeUnfold(s: string, key: string, i: nat)
    requires i < |s|
    ensures ParseDecl(s, i, key).Some? ==>
      Tokenize(s, key, i) == [ParseDecl(s, i, key).value.0] + Tokenize(s, key, ParseDecl(s, i, key).value.1)
    ensures ParseDecl(s, i, key).None? ==> Tokenize(s, key, i) == [Lit(s[i])] + Tokenize(s, key, i + 1)
  {
  }

  /** `Step` only appends to the output. */
  lemma StepAppends(env: Env, prefix: string, path: string, st: EnvState, p: EnvPiece)
    ensures var empty := Step(env, prefix, path, st.(out := ""), p);
      Step(env, prefix, path, st, p) == empty.(out := st.out + empty.out)
  {
  }

  /**
   * `find_and_replace_envs(s, prefix, path, env, refs)`: returns the rewritten
   * text, the registry after the pass and the duplicate-label warnings.
   */
  method FindAndReplaceEnvs(s: string, prefix: string, path: string, env: Env, refs: Registry)
    returns (out: string, refs': Registry, warnings: seq<Warning>)
    ensures var r := ReplaceEnvs(s, prefix, path, env, refs);
      out == r.out && refs' == r.refs && warnings == r.warnings
  {
    var ctr: nat := 0;
    out, refs', warnings := "", refs, [];
    var i := 0;
    while i < |s|
      invariant i <= |s|
      invariant Process(env, prefix, path, EnvState(out, ctr, refs', warnings), Tokenize(s, env.key, i))
        == ReplaceEnvs(s, prefix, path, env, refs)
      decreases |s| - i
    {
      var m := ParseDecl(s, i, env.key);
      if m.None? {
        LitAdvance(s, env, prefix, path, EnvState(out, ctr, refs', warnings), i);
        out, i := out + [s[i]], i + 1;
      } else {
        var p, next := m.value.0, m.value.1;
        DeclAdvance(s, env, prefix, path, EnvState(out, ctr, refs', warnings), i, p, next);
        var r := Replace(env, prefix, path, ctr, refs', warnings, p.lbl, p.title);
        out, ctr, refs', warnings, i := out + r.out, r.ctr, r.refs, r.warnings, next;
      }
    }
  }

  /** Taking one piece off the front of the scan is one closure step. */
  lemma Advance(s: string, env: Env, prefix: string, path: string, st: EnvState, i: nat, p: EnvPiece, next: nat)
    requires i <= |s| && next <= |s|
    requires Tokenize(s, env.key, i) == [p] + Tokenize(s, env.key, next)
    ensures Process(env, prefix, path, st, Tokenize(s, env.key, i))
      == Process(env, prefix, path, Step(env, prefix, path, st, p), Tokenize(s, env.key, next))
  {
    ProcessCons(env, prefix, path, st, p, Tokenize(s, env.key, next));
  }

  /** A character that starts no marker is copied. */
  lemma LitAdvance(s: string, env: Env, prefix: string, path: string, st: EnvState, i: nat)
    requires i < |s| && ParseDecl(s, i, env.key).None?
    ensures Process(env, prefix, path, st, Tokenize(s, env.key, i))
      == Process(env, prefix, path, st.(out := st.out + [s[i]]), Tokenize(s, env.key, i + 1))
  {
    TokenizeUnfold(s, env.key, i);
    Advance(s, env, prefix, path, st, i, Lit(s[i]), i + 1);
  }

  /** A marker is replaced by the text the closure returns for it. */
  lemma DeclAdvance(s: string, env: Env, prefix: string, path: string, st: EnvState,
                    i: nat, p: EnvPiece, next: nat)
    requires i < |s| && ParseDecl(s, i, env.key) == Some((p, next))
    ensures p.Decl? && next <= |s|
    ensures var r := Replace(env, prefix, path, st.ctr, st.refs, st.warnings, p.lbl, p.title);
      Process(env, prefix, path, st, Tokenize(s, env.key, i))
        == Process(env, prefix, path, r.(out := st.out + r.out), Tokenize(s, env.key, next))
  {
    TokenizeUnfold(s, env.key, i);
    Advance(s, env, prefix, path, st, i, p, next);
  }



  // ---------------------------------------------------------------------------
  // Properties

  /** The scanner loses and invents nothing: the pieces spell out the text. */
  lemma {:induction false} TokenizeRoundTrip(s: string, key: string, i: nat)
    requires i <= |s|
    ensures Unparse(key, Tokenize(s, key, i)) == s[i..]
    decreases |s| - i
  {
    if i < |s| {
      var p, next := FirstPiece(s, key, i);
      TokenizeRoundTrip(s, key, next);
      UnparseStep(s, key, i, next, p, Tokenize(s, key, next), Tokenize(s, key, i));
    }
  }

  /** One step of the round trip: a piece spanning `s[i..next]` followed by pieces spelling `s[next..]`. */
  lemma UnparseStep(s: string, key: string, i: nat, next: nat, p: EnvPiece, rest: seq<EnvPiece>, ps: seq<EnvPiece>)
    requires i < next <= |s| && s[i..next] == Source(key, p)
    requires Unparse(key, rest) == s[next..] && ps == [p] + rest
    ensures Unparse(key, ps) == s[i..]
  {
    UnparseCons(key, p, rest);
    assert s[i..] == s[i..next] + s[next..];
  }

  /** The first piece of the scan at `i`, the text it spans, and where the scan resumes. */
  lemma FirstPiece(s: string, key: string, i: nat) returns (p: EnvPiece, next: nat)
    requires i < |s|
    ensures i < next <= |s| && s[i..next] == Source(key, p)
    ensures Tokenize(s, key, i) == [p] + Tokenize(s, key, next)
  {
    TokenizeUnfold(s, key, i);
    match ParseDecl(s, i, key)
    case Some((d, e)) =>
      p, next := d, e;
    case None =>
      p, next := Lit(s[i]), i + 1;
  }

  /** The text of a non-empty sequence of pieces: the head's text, then the rest. */
  lemma UnparseCons(key: string, p: EnvPiece, rest: seq<EnvPiece>)
    ensures Unparse(key, [p] + rest) == Source(key, p) + Unparse(key, rest)
  {
    assert ([p] + rest)[1..] == rest;
  }

  /** Number of declarations among the pieces. */
  function DeclCount(ps: seq<EnvPiece>): nat
  {
    if ps == [] then 0 else (if ps[0].Decl? then 1 else 0) + DeclCount(ps[1..])
  }

  /** Number of declarations that carry a label. */
  function LabelledCount(ps: seq<EnvPiece>): nat
  {
    if ps == [] then 0 else (if ps[0].Decl? && ps[0].lbl.Some? then 1 else 0) + LabelledCount(ps[1..])
  }

  /** The labels captured among the pieces. */
  function Labels(ps: seq<EnvPiece>): set<string>
  {
    set k | 0 <= k < |ps| && ps[k].Decl? && ps[k].lbl.Some? :: ps[k].lbl.value
  }

  /** The `k`-th piece is the first declaration to capture its label. */
  predicate FirstUse(ps: seq<EnvPiece>, k: int)
  {
    0 <= k < |ps| && ps[k].Decl? && ps[k].lbl.Some?
    && forall j :: 0 <= j < k ==> !(ps[j].Decl? && ps[j].lbl == ps[k].lbl)
  }

  lemma DeclCountCons(ps: seq<EnvPiece>, k: nat)
    requires 0 < k <= |ps|
    ensures DeclCount(ps[..k]) == (if ps[0].Decl? then 1 else 0) + DeclCount(ps[1..][..k - 1])
  {
    assert ps[..k][1..] == ps[1..][..k - 1];
  }

  /**
   * The numbers the pieces get when the counter stands at `c`: the `k`-th
   * piece, if a declaration, is numbered one more than `c` plus the number of
   * declarations before it.
   */
  function Numbers(c: nat, ps: seq<EnvPiece>): (r: seq<nat>)
    ensures |r| == |ps|
    ensures forall k :: 0 <= k < |ps| ==> r[k] == c + DeclCount(ps[..k]) + 1
    decreases |ps|
  {
    if ps == [] then []
    else
      var c' := c + (if ps[0].Decl? then 1 else 0);
      var rest := Numbers(c', ps[1..]);
      assert ps[..0] == [];
      assert forall k :: 0 < k < |ps| ==> DeclCount(ps[..k]) == (if ps[0].Decl? then 1 else 0) + DeclCount(ps[1..][..k - 1]) by {
        forall k | 0 < k < |ps| { DeclCountCons(ps, k); }
      }
      [c + 1] + rest
  }

  /** Every piece replaced, in order, the `k`-th with the number `ns[k]`. */
  function RenderAll(env: Env, prefix: string, ns: seq<nat>, ps: seq<EnvPiece>): string
    requires |ns| == |ps|
    decreases |ps|
  {
    if ps == [] then "" else Render(env, prefix, ns[0], ps[0]) + RenderAll(env, prefix, ns[1..], ps[1..])
  }

  /** One match appends the replacement of its piece and bumps the counter for a declaration. */
  lemma StepOutput(env: Env, prefix: string, path: string, st: EnvState, p: EnvPiece)
    ensures Step(env, prefix, path, st, p).out == st.out + Render(env, prefix, st.ctr + 1, p)
    ensures Step(env, prefix, path, st, p).ctr == st.ctr + (if p.Decl? then 1 else 0)
  {
  }

  /**
   * The output is the pieces' replacements in order, the `k`-th declaration of
   * the scan being numbered `k` (after the counter's starting value), and the
   * counter ends at the number of declarations.
   */
  lemma {:induction false} ProcessOutput(env: Env, prefix: string, path: string, st: EnvState, ps: seq<EnvPiece>)
    ensures Process(env, prefix, path, st, ps).out == st.out + RenderAll(env, prefix, Numbers(st.ctr, ps), ps)
    ensures Process(env, prefix, path, st, ps).ctr == st.ctr + DeclCount(ps)
    decreases |ps|
  {
    if ps != [] {
      var st1, tail := Step(env, prefix, path, st, ps[0]), ps[1..];
      var last := Process(env, prefix, path, st1, tail);
      assert Process(env, prefix, path, st, ps) == last;
      StepOutput(env, prefix, path, st, ps[0]);
      ProcessOutput(env, prefix, path, st1, tail);
      RenderAllHead(env, prefix, st.ctr, ps);
      Regroup(st.out, Render(env, prefix, st.ctr + 1, ps[0]), RenderAll(env, prefix, Numbers(st1.ctr, tail), tail),
              st1.out, last.out, RenderAll(env, prefix, Numbers(st.ctr, ps), ps));
    }
  }

  /** Appending `x` then `y` is appending `x + y`. */
  lemma Regroup(a: string, x: string, y: string, b: string, c: string, xy: string)
    requires b == a + x && c == b + y && xy == x + y
    ensures c == a + xy
  {
  }

  /** The rendering of numbered pieces: the first piece's, then the rest's with the count moved on. */
  lemma RenderAllHead(env: Env, prefix: string, c: nat, ps: seq<EnvPiece>)
    requires ps != []
    ensures RenderAll(env, prefix, Numbers(c, ps), ps)
      == Render(env, prefix, c + 1, ps[0])
         + RenderAll(env, prefix, Numbers(c + (if ps[0].Decl? then 1 else 0), ps[1..]), ps[1..])
  {
    var ns := Numbers(c, ps);
    assert ns[1..] == Numbers(c + (if ps[0].Decl? then 1 else 0), ps[1..]);
  }

  /**
   * Numbering restarts with every call: the `k`-th declaration marker found in
   * the text is numbered `k`, and the output is the text with every marker
   * replaced by its anchor and header.
   */
  lemma NumberingByOccurrence(s: string, prefix: string, path: string, env: Env, refs: Registry)
    ensures var ps := Tokenize(s, env.key, 0);
      ReplaceEnvs(s, prefix, path, env, refs).out == RenderAll(env, prefix, Numbers(0, ps), ps)
      && ReplaceEnvs(s, prefix, path, env, refs).ctr == DeclCount(ps)
  {
    ProcessOutput(env, prefix, path, EnvState("", 0, refs, []), Tokenize(s, env.key, 0));
  }

  /**
   * The rewritten text does not depend on the registry: a duplicate label is
   * rendered (anchor included) exactly as a first-seen one.
   */
  lemma OutputIndependentOfRegistry(s: string, prefix: string, path: string, env: Env, refs1: Registry, refs2: Registry)
    ensures ReplaceEnvs(s, prefix, path, env, refs1).out == ReplaceEnvs(s, prefix, path, env, refs2).out
  {
    NumberingByOccurrence(s, prefix, path, env, refs1);
    NumberingByOccurrence(s, prefix, path, env, refs2);
  }

  /**
   * A declaration starts with the anchor line exactly when it captured a label,
   * for any kind whose header does not itself start like an anchor.
   */
  lemma AnchorIffLabel(env: Env, prefix: string, n: nat, d: EnvPiece)
    requires d.Decl? && env.emph != "" && env.emph[0] != '<'
    ensures var out := Render(env, prefix, n, d);
      (d.lbl.Some? <==> |out| >= 9 && out[..9] == "<a name=\"")
    ensures d.lbl.Some? ==>
      Render(env, prefix, n, d) == "<a name=\"" + d.lbl.value + "\"></a>\n" + Header(env, prefix, n, d.title)
  {
    var out := Render(env, prefix, n, d);
    if d.lbl.None? {
      assert out[0] == env.emph[0];
    } else {
      assert out[..9] == "<a name=\"";
    }
  }

  /**
   * One match and the registry: a first-seen label adds exactly one entry, a
   * duplicate adds a warning and leaves the registry as it was, and a marker
   * without a label (or a literal character) touches neither.
   */
  lemma StepRegistry(env: Env, prefix: string, path: string, st: EnvState, p: EnvPiece)
    ensures var r := Step(env, prefix, path, st, p);
      r.ctr == st.ctr + (if p.Decl? then 1 else 0)
      && (p.Decl? && p.lbl.Some? && p.lbl.value !in st.refs ==>
            r.refs == st.refs[p.lbl.value := LabelInfo(NumberedName(env, prefix, st.ctr + 1), path, p.title)]
            && |r.refs| == |st.refs| + 1 && r.warnings == st.warnings)
      && (p.Decl? && p.lbl.Some? && p.lbl.value in st.refs ==>
            r.refs == st.refs
            && r.warnings == st.warnings + [DuplicateLabel(NumberedName(env, prefix, st.ctr + 1), p.lbl.value)])
      && (!(p.Decl? && p.lbl.Some?) ==> r.refs == st.refs && r.warnings == st.warnings)
  {
  }

  /** The labels of a non-empty sequence of pieces: those of the head and of the tail. */
  lemma LabelsCons(ps: seq<EnvPiece>)
    requires ps != []
    ensures Labels(ps) == LabelOf(ps[0]) + Labels(ps[1..])
  {
    var tail := ps[1..];
    forall l | l in Labels(ps)
      ensures l in LabelOf(ps[0]) + Labels(tail)
    {
      var k :| 0 <= k < |ps| && ps[k].Decl? && ps[k].lbl.Some? && ps[k].lbl.value == l;
      if k > 0 { assert tail[k - 1] == ps[k]; }
    }
    forall l | l in Labels(tail) ensures l in Labels(ps) {
      var k :| 0 <= k < |tail| && tail[k].Decl? && tail[k].lbl.Some? && tail[k].lbl.value == l;
      assert ps[k + 1] == tail[k];
    }
  }

  /**
   * A scan keeps every entry that was there and adds exactly the captured labels.
   */
  lemma {:induction false} RegistryGrows(env: Env, prefix: string, path: string, st: EnvState, ps: seq<EnvPiece>)
    ensures var r := Process(env, prefix, path, st, ps);
      (forall l :: l in st.refs ==> l in r.refs && r.refs[l] == st.refs[l])
      && r.refs.Keys == st.refs.Keys + Labels(ps)
    decreases |ps|
  {
    if ps == [] {
      assert Labels(ps) == {};
    } else {
      var st1 := Step(env, prefix, path, st, ps[0]);
      StepRegistry(env, prefix, path, st, ps[0]);
      RegistryGrows(env, prefix, path, st1, ps[1..]);
      LabelsCons(ps);
      KeepsChain(st.refs, st1.refs, Process(env, prefix, path, st1, ps[1..]).refs,
                 LabelOf(ps[0]), Labels(ps[1..]));
    }
  }

  /** The label a piece declares, if any, as a set. */
  function LabelOf(p: EnvPiece): set<string>
  {
    if p.Decl? && p.lbl.Some? then {p.lbl.value} else {}
  }

  /** Keeping entries while adding keys composes. */
  lemma KeepsChain(a: Registry, b: Registry, c: Registry, x: set<string>, y: set<string>)
    requires (forall l :: l in a ==> l in b && b[l] == a[l]) && b.Keys == a.Keys + x
    requires (forall l :: l in b ==> l in c && c[l] == b[l]) && c.Keys == b.Keys + y
    ensures (forall l :: l in a ==> l in c && c[l] == a[l]) && c.Keys == a.Keys + (x + y)
  {
  }

  /** A label a scan adds is registered with the path of the chapter being scanned. */
  lemma {:induction false} NewEntriesHere(env: Env, prefix: string, path: string, st: EnvState, ps: seq<EnvPiece>)
    ensures var r := Process(env, prefix, path, st, ps);
      forall l :: l in r.refs && l !in st.refs ==> r.refs[l].path == path
    decreases |ps|
  {
    if ps != [] {
      var st1 := Step(env, prefix, path, st, ps[0]);
      StepRegistry(env, prefix, path, st, ps[0]);
      NewEntriesHere(env, prefix, path, st1, ps[1..]);
      RegistryGrows(env, prefix, path, st1, ps[1..]);
    }
  }

  /** Every labelled declaration adds either one entry or one duplicate-label warning. */
  lemma {:induction false} RegistryCount(env: Env, prefix: string, path: string, st: EnvState, ps: seq<EnvPiece>)
    ensures var r := Process(env, prefix, path, st, ps);
      |r.refs| + |r.warnings| == |st.refs| + |st.warnings| + LabelledCount(ps)
    decreases |ps|
  {
    if ps != [] {
      var st1 := Step(env, prefix, path, st, ps[0]);
      StepRegistry(env, prefix, path, st, ps[0]);
      RegistryCount(env, prefix, path, st1, ps[1..]);
    }
  }

  /**
   * A label that was not yet registered is bound to the first declaration that
   * captured it, with that declaration's number, the chapter's path and its title.
   */
  lemma {:induction false} RegistryFirstUse(env: Env, prefix: string, path: string, st: EnvState, ps: seq<EnvPiece>, k: nat)
    requires FirstUse(ps, k) && ps[k].lbl.value !in st.refs
    ensures var r := Process(env, prefix, path, st, ps);
      ps[k].lbl.value in r.refs
      && r.refs[ps[k].lbl.value]
         == LabelInfo(NumberedName(env, prefix, st.ctr + DeclCount(ps[..k]) + 1), path, ps[k].title)
    decreases |ps|
  {
    var st1 := Step(env, prefix, path, st, ps[0]);
    var tail := ps[1..];
    assert Process(env, prefix, path, st, ps) == Process(env, prefix, path, st1, tail);
    if k == 0 {
      FirstUseHere(env, prefix, path, st, ps);
    } else {
      FirstUseLater(ps, k);
      StepRegistry(env, prefix, path, st, ps[0]);
      RegistryFirstUse(env, prefix, path, st1, tail, k - 1);
      DeclCountCons(ps, k);
    }
  }

  /** The first piece registers its new label, and the rest of the scan keeps that entry. */
  lemma FirstUseHere(env: Env, prefix: string, path: string, st: EnvState, ps: seq<EnvPiece>)
    requires FirstUse(ps, 0) && ps[0].lbl.value !in st.refs
    ensures var r := Process(env, prefix, path, st, ps);
      ps[0].lbl.value in r.refs
      && r.refs[ps[0].lbl.value] == LabelInfo(NumberedName(env, prefix, st.ctr + DeclCount(ps[..0]) + 1), path, ps[0].title)
  {
    var l := ps[0].lbl.value;
    var st1 := Step(env, prefix, path, st, ps[0]);
    var r := Process(env, prefix, path, st, ps);
    assert st1.refs[l] == LabelInfo(NumberedName(env, prefix, st.ctr + 1), path, ps[0].title);
    assert l in r.refs && r.refs[l] == st1.refs[l] by {
      RegistryGrows(env, prefix, path, st1, ps[1..]);
      assert r == Process(env, prefix, path, st1, ps[1..]);
    }
    assert DeclCount(ps[..0]) == 0 by { assert ps[..0] == []; }
  }

  /** A later first use stays a first use in the tail, and the head does not capture its label. */
  lemma FirstUseLater(ps: seq<EnvPiece>, k: nat)
    requires 0 < k && FirstUse(ps, k)
    ensures FirstUse(ps[1..], k - 1) && ps[1..][k - 1] == ps[k]
    ensures LabelOf(ps[0]) == {} || ps[k].lbl.value !in LabelOf(ps[0])
  {
    var tail := ps[1..];
    forall j | 0 <= j < k - 1 ensures !(tail[j].Decl? && tail[j].lbl == tail[k - 1].lbl) {
      assert tail[j] == ps[j + 1];
    }
  }

  /**
   * The registry after `find_and_replace_envs`: prior entries are untouched, a
   * label is added exactly when a marker captured it and it was not yet known,
   * and it then records the numbered name, path and title of the first marker
   * that captured it.
   */
  lemma RegistryAfterEnvs(s: string, prefix: string, path: string, env: Env, refs: Registry)
    ensures var ps, r := Tokenize(s, env.key, 0), ReplaceEnvs(s, prefix, path, env, refs);
      (forall l :: l in refs ==> l in r.refs && r.refs[l] == refs[l])
      && r.refs.Keys == refs.Keys + Labels(ps)
      && (forall k :: FirstUse(ps, k) && ps[k].lbl.value !in refs ==>
            ps[k].lbl.value in r.refs && r.refs[ps[k].lbl.value]
            == LabelInfo(NumberedName(env, prefix, DeclCount(ps[..k]) + 1), path, ps[k].title))
      && |r.refs| + |r.warnings| == |refs| + LabelledCount(ps)
      && (forall l :: l in r.refs && l !in refs ==> r.refs[l].path == path)
  {
    var ps, st := Tokenize(s, env.key, 0), EnvState("", 0, refs, []);
    NewEntriesHere(env, prefix, path, st, ps);
    RegistryCount(env, prefix, path, st, ps);
    forall k | FirstUse(ps, k) && ps[k].lbl.value !in refs
      ensures var r := ReplaceEnvs(s, prefix, path, env, refs);
        ps[k].lbl.value in r.refs
        && r.refs[ps[k].lbl.value] == LabelInfo(NumberedName(env, prefix, DeclCount(ps[..k]) + 1), path, ps[k].title)
    {
      RegistryFirstUse(env, prefix, path, st, ps, k);
    }
  }

  /** `s` holds the opener `{{key}}` at position `j`. */
  predicate OpenerAt(s: string, j: int, key: string)
  {
    0 <= j && j + |Opener(key)| <= |s| && s[j..j + |Opener(key)|] == Opener(key)
  }

  /** Scanning a stretch of text in which no opener starts copies it and changes nothing else. */
  lemma {:induction false} CopyUpTo(s: string, env: Env, prefix: string, path: string,
                                    st: EnvState, i: nat, e: nat)
    requires i <= e <= |s|
    requires forall j :: i <= j < e ==> !OpenerAt(s, j, env.key)
    ensures Process(env, prefix, path, st, Tokenize(s, env.key, i))
      == Process(env, prefix, path, st.(out := st.out + s[i..e]), Tokenize(s, env.key, e))
    decreases e - i
  {
    if i == e {
      assert st.out + s[i..e] == st.out;
    } else {
      TokenizeUnfold(s, env.key, i);
      assert !OpenerAt(s, i, env.key);
      assert ParseDecl(s, i, env.key).None?;
      var rest := Tokenize(s, env.key, i + 1);
      assert ([Lit(s[i])] + rest)[1..] == rest;
      CopyUpTo(s, env, prefix, path, st.(out := st.out + [s[i]]), i + 1, e);
      assert st.out + [s[i]] + s[i + 1..e] == st.out + s[i..e];
    }
  }

  /** Scanning the rest of the text from `e`, where no opener starts, appends it verbatim. */
  lemma TailCopy(s: string, env: Env, prefix: string, path: string, st: EnvState, e: nat)
    requires e <= |s|
    requires forall j :: e <= j ==> !OpenerAt(s, j, env.key)
    ensures Process(env, prefix, path, st, Tokenize(s, env.key, e)) == st.(out := st.out + s[e..])
  {
    CopyUpTo(s, env, prefix, path, st, e, |s|);
    assert s[e..|s|] == s[e..];
    assert Tokenize(s, env.key, |s|) == [];
  }

  /**
   * Text without the environment's opener `{{key}}` comes back unchanged,
   * with the registry untouched and no warning.
   */
  lemma NoMarkerUnchanged(s: string, prefix: string, path: string, env: Env, refs: Registry)
    requires forall j :: 0 <= j ==> !OpenerAt(s, j, env.key)
    ensures ReplaceEnvs(s, prefix, path, env, refs) == EnvState(s, 0, refs, [])
  {
    TailCopy(s, env, prefix, path, EnvState("", 0, refs, []), 0);
    assert s[0..] == s;
  }

  lemma FindCloseExact(s: string, from: nat, k: nat, close: char)
    requires close != '\n' && from <= k < |s| && s[k] == close
    requires forall j :: from <= j < k ==> s[j] != close && s[j] != '\n'
    ensures FindClose(s, from, close) == Some(k)
    decreases k - from
  {
    if from < k {
      FindCloseExact(s, from + 1, k, close);
    }
  }

  /** A group `open c close` at `j` captures `c` when `c` has neither `close` nor a line break. */
  lemma GroupExact(s: string, j: nat, open: char, close: char, c: string)
    requires close != '\n' && close !in c && '\n' !in c
    requires j + |c| + 2 <= |s| && s[j..j + |c| + 2] == [open] + c + [close]
    ensures Group(s, j, open, close) == (Some(c), j + |c| + 2)
  {
    assert s[j] == open;
    forall m | j + 1 <= m < j + 1 + |c| ensures s[m] != close && s[m] != '\n' {
      assert s[m] == s[j..j + |c| + 2][m - j] == c[m - j - 1];
    }
    assert s[j + 1 + |c|] == s[j..j + |c| + 2][|c| + 1];
    FindCloseExact(s, j + 1, j + 1 + |c|, close);
    assert s[j + 1..j + 1 + |c|] == c by {
      forall m | 0 <= m < |c| ensures s[j + 1..j + 1 + |c|][m] == c[m] {
        assert s[j + 1 + m] == s[j..j + |c| + 2][m + 1];
      }
    }
  }

  /** A marker on its own, whose label and title are each free of their closing bracket and of line breaks. */
  predicate WellFormedDecl(d: EnvPiece)
  {
    d.Decl?
    && (d.lbl.Some? ==> '}' !in d.lbl.value && '\n' !in d.lbl.value)
    && (d.title.Some? ==> ']' !in d.title.value && '\n' !in d.title.value)
  }

  /**
   * What follows a marker cannot extend it: when the marker has no title, the
   * next character does not open a title, nor a label when it has no label either.
   */
  predicate ClosedBy(d: EnvPiece, post: string)
  {
    d.Decl? && d.title.None? && post != [] ==> post[0] != '[' && (d.lbl.None? ==> post[0] != '{')
  }

  /** A group written at `j` is read back, and an absent one is not invented. */
  lemma GroupAt(s: string, j: nat, open: char, c: Option<string>, close: char)
    requires close != '\n' && (c.Some? ==> close !in c.value && '\n' !in c.value)
    requires j + |Wrap(open, c, close)| <= |s| && s[j..j + |Wrap(open, c, close)|] == Wrap(open, c, close)
    requires c.None? ==> j == |s| || s[j] != open
    ensures Group(s, j, open, close) == (c, j + |Wrap(open, c, close)|)
  {
    if c.Some? {
      GroupExact(s, j, open, close, c.value);
    }
  }

  /** Text holding `a + b + c` at `i` holds each part at its own offset. */
  lemma SlicesOf(s: string, i: nat, a: string, b: string, c: string)
    requires i + |a + b + c| <= |s| && s[i..i + |a + b + c|] == a + b + c
    ensures s[i..i + |a|] == a
    ensures s[i + |a|..i + |a| + |b|] == b
    ensures s[i + |a| + |b|..i + |a + b + c|] == c
  {
    var t := s[i..i + |a + b + c|];
    assert s[i..i + |a|] == t[..|a|];
    forall m | 0 <= m < |b| ensures s[i + |a|..i + |a| + |b|][m] == b[m] {
      assert s[i + |a| + m] == t[|a| + m];
    }
    forall m | 0 <= m < |c| ensures s[i + |a| + |b|..i + |a + b + c|][m] == c[m] {
      assert s[i + |a| + |b| + m] == t[|a| + |b| + m];
    }
  }

  /** The label group of a well-formed marker written at `i` is read back. */
  lemma LabelGroupAt(s: string, i: nat, key: string, d: EnvPiece)
    requires WellFormedDecl(d)
    requires i + |Source(key, d)| <= |s| && s[i..i + |Source(key, d)|] == Source(key, d)
    requires ClosedBy(d, s[i + |Source(key, d)|..])
    ensures var j := i + |Opener(key)|;
      Group(s, j, '{', '}') == (d.lbl, j + |Wrap('{', d.lbl, '}')|)
  {
    var open, g1, g2 := Opener(key), Wrap('{', d.lbl, '}'), Wrap('[', d.title, ']');
    var j, j1, e := i + |open|, i + |open| + |g1|, i + |Source(key, d)|;
    SourceParts(key, d);
    SlicesOf(s, i, open, g1, g2);
    if d.lbl.None? && j < e {
      assert s[j] == s[j1..e][0] == '[';
    } else if d.lbl.None? && j < |s| {
      assert s[j] == s[e..][0];
    }
    GroupAt(s, j, '{', d.lbl, '}');
  }

  /** The title group of a well-formed marker written at `i` is read back. */
  lemma TitleGroupAt(s: string, i: nat, key: string, d: EnvPiece)
    requires WellFormedDecl(d)
    requires i + |Source(key, d)| <= |s| && s[i..i + |Source(key, d)|] == Source(key, d)
    requires ClosedBy(d, s[i + |Source(key, d)|..])
    ensures var j1 := i + |Opener(key)| + |Wrap('{', d.lbl, '}')|;
      Group(s, j1, '[', ']') == (d.title, i + |Source(key, d)|)
  {
    var open, g1, g2 := Opener(key), Wrap('{', d.lbl, '}'), Wrap('[', d.title, ']');
    var j1, e := i + |open| + |g1|, i + |Source(key, d)|;
    SourceParts(key, d);
    SlicesOf(s, i, open, g1, g2);
    if d.title.None? && j1 < |s| {
      assert s[j1] == s[e..][0];
    }
    GroupAt(s, j1, '[', d.title, ']');
  }

  /** The opener and both groups of a well-formed marker written at `i` are read back. */
  lemma PartsAt(s: string, i: nat, key: string, d: EnvPiece)
    requires WellFormedDecl(d)
    requires i + |Source(key, d)| <= |s| && s[i..i + |Source(key, d)|] == Source(key, d)
    requires ClosedBy(d, s[i + |Source(key, d)|..])
    ensures OpenerAt(s, i, key)
    ensures var j := i + |Opener(key)|;
      Group(s, j, '{', '}') == (d.lbl, j + |Wrap('{', d.lbl, '}')|)
    ensures var j1 := i + |Opener(key)| + |Wrap('{', d.lbl, '}')|;
      Group(s, j1, '[', ']') == (d.title, i + |Source(key, d)|)
  {
    SourceParts(key, d);
    SlicesOf(s, i, Opener(key), Wrap('{', d.lbl, '}'), Wrap('[', d.title, ']'));
    LabelGroupAt(s, i, key, d);
    TitleGroupAt(s, i, key, d);
  }

  /** Where an opener stands, the scan reads the label group and then the title group after it. */
  lemma ParseDeclGroups(s: string, i: nat, key: string, lbl: Option<string>, j1: nat, title: Option<string>, e: nat)
    requires OpenerAt(s, i, key)
    requires Group(s, i + |Opener(key)|, '{', '}') == (lbl, j1)
    requires j1 <= |s| && Group(s, j1, '[', ']') == (title, e)
    ensures ParseDecl(s, i, key) == Some((Decl(lbl, title), e))
  {
  }

  /** A well-formed marker written at `i` and not extended by what follows is read back whole. */
  lemma ParseDeclAt(s: string, i: nat, key: string, d: EnvPiece)
    requires WellFormedDecl(d)
    requires i + |Source(key, d)| <= |s| && s[i..i + |Source(key, d)|] == Source(key, d)
    requires ClosedBy(d, s[i + |Source(key, d)|..])
    ensures ParseDecl(s, i, key) == Some((d, i + |Source(key, d)|))
  {
    PartsAt(s, i, key, d);
    var j1 := i + |Opener(key)| + |Wrap('{', d.lbl, '}')|;
    ParseDeclGroups(s, i, key, d.lbl, j1, d.title, i + |Source(key, d)|);
  }



  /** A well-formed marker on its own is scanned as exactly that declaration. */
  lemma TokenizeDecl(key: string, d: EnvPiece)
    requires WellFormedDecl(d)
    ensures Tokenize(Source(key, d), key, 0) == [d]
  {
    var s := Source(key, d);
    assert s[0..|s|] == s;
    ParseDeclAt(s, 0, key, d);
    TokenizeUnfold(s, key, 0);
  }

  /**
   * A marker on its own becomes its anchor and header with the number 1; a
   * label not yet known is registered with the numbered name, the path and the
   * title, and a known one only raises a duplicate-label warning.
   */
  lemma DeclarationAlone(prefix: string, path: string, env: Env, refs: Registry, d: EnvPiece)
    requires WellFormedDecl(d)
    ensures var r := ReplaceEnvs(Source(env.key, d), prefix, path, env, refs);
      r.out == Anchor(d.lbl) + Header(env, prefix, 1, d.title) && r.ctr == 1
      && (d.lbl.None? ==> r.refs == refs && r.warnings == [])
      && (d.lbl.Some? && d.lbl.value !in refs ==>
            r.refs == refs[d.lbl.value := LabelInfo(NumberedName(env, prefix, 1), path, d.title)] && r.warnings == [])
      && (d.lbl.Some? && d.lbl.value in refs ==>
            r.refs == refs && r.warnings == [DuplicateLabel(NumberedName(env, prefix, 1), d.lbl.value)])
  {
    var st := EnvState("", 0, refs, []);
    AloneIsStep(prefix, path, env, refs, d);
    StepRegistry(env, prefix, path, st, d);
  }

  /** A lone marker is one step of the closure from the initial state. */
  lemma AloneIsStep(prefix: string, path: string, env: Env, refs: Registry, d: EnvPiece)
    requires WellFormedDecl(d)
    ensures ReplaceEnvs(Source(env.key, d), prefix, path, env, refs)
      == Step(env, prefix, path, EnvState("", 0, refs, []), d)
  {
    var st := EnvState("", 0, refs, []);
    TokenizeDecl(env.key, d);
    assert [d][1..] == [];
    assert Process(env, prefix, path, st, [d]) == Process(env, prefix, path, Step(env, prefix, path, st, d), []);
  }

  /** A match found at `i` is one closure step, and the scan resumes after it. */
  lemma MatchStep(s: string, i: nat, prefix: string, path: string, env: Env, st: EnvState, d: EnvPiece, e: nat)
    requires i < |s| && ParseDecl(s, i, env.key) == Some((d, e))
    ensures e <= |s|
    ensures Process(env, prefix, path, st, Tokenize(s, env.key, i))
      == Process(env, prefix, path, Step(env, prefix, path, st, d), Tokenize(s, env.key, e))
  {
    TokenizeUnfold(s, env.key, i);
    Advance(s, env, prefix, path, st, i, d, e);
  }

  /** `Process` takes one step off the front. */
  lemma ProcessCons(env: Env, prefix: string, path: string, st: EnvState, p: EnvPiece, rest: seq<EnvPiece>)
    ensures Process(env, prefix, path, st, [p] + rest)
      == Process(env, prefix, path, Step(env, prefix, path, st, p), rest)
  {
    assert ([p] + rest)[1..] == rest;
  }

  /** From a match at `i` to the end of text in which no opener follows: one closure step, then a copy. */
  lemma MatchThenCopy(s: string, i: nat, prefix: string, path: string, env: Env, st: EnvState, d: EnvPiece, e: nat)
    requires i < |s| && ParseDecl(s, i, env.key) == Some((d, e))
    requires forall j :: e <= j ==> !OpenerAt(s, j, env.key)
    ensures e <= |s|
    ensures var st1 := Step(env, prefix, path, st, d);
      Process(env, prefix, path, st, Tokenize(s, env.key, i)) == st1.(out := st1.out + s[e..])
  {
    MatchStep(s, i, prefix, path, env, st, d, e);
    TailCopy(s, env, prefix, path, Step(env, prefix, path, st, d), e);
  }


  /** Scanning text that starts with an opener-free `pre` first copies `pre`. */
  lemma CopyPrefix(s: string, pre: string, prefix: string, path: string, env: Env, refs: Registry)
    requires |pre| <= |s| && s[..|pre|] == pre
    requires forall j :: 0 <= j < |pre| ==> !OpenerAt(s, j, env.key)
    ensures ReplaceEnvs(s, prefix, path, env, refs)
      == Process(env, prefix, path, EnvState(pre, 0, refs, []), Tokenize(s, env.key, |pre|))
  {
    var st := EnvState("", 0, refs, []);
    CopyUpTo(s, env, prefix, path, st, 0, |pre|);
    assert st.(out := st.out + s[0..|pre|]) == EnvState(pre, 0, refs, []);
  }

  /** The scan of a match amid opener-free text: copy, one closure step, copy. */
  lemma ScanAround(s: string, pre: string, prefix: string, path: string, env: Env, refs: Registry, d: EnvPiece, e: nat)
    requires |pre| < |s| && s[..|pre|] == pre
    requires forall j :: 0 <= j < |pre| ==> !OpenerAt(s, j, env.key)
    requires ParseDecl(s, |pre|, env.key) == Some((d, e))
    requires forall j :: e <= j ==> !OpenerAt(s, j, env.key)
    ensures e <= |s|
    ensures var st1 := Step(env, prefix, path, EnvState(pre, 0, refs, []), d);
      ReplaceEnvs(s, prefix, path, env, refs) == st1.(out := st1.out + s[e..])
  {
    CopyPrefix(s, pre, prefix, path, env, refs);
    MatchThenCopy(s, |pre|, prefix, path, env, EnvState(pre, 0, refs, []), d, e);
  }


  /**
   * A marker amid text in which the opener does not otherwise start: the text
   * around it passes through unchanged, and the marker is numbered and
   * registered exactly as if it stood alone.
   */
  lemma DeclarationInText(pre: string, post: string, prefix: string, path: string, env: Env,
                          refs: Registry, d: EnvPiece)
    requires WellFormedDecl(d) && ClosedBy(d, post)
    requires forall j :: 0 <= j < |pre| ==> !OpenerAt(pre + Source(env.key, d) + post, j, env.key)
    requires forall j :: |pre| + |Source(env.key, d)| <= j ==> !OpenerAt(pre + Source(env.key, d) + post, j, env.key)
    ensures var alone := ReplaceEnvs(Source(env.key, d), prefix, path, env, refs);
      ReplaceEnvs(pre + Source(env.key, d) + post, prefix, path, env, refs)
        == alone.(out := pre + alone.out + post)
  {
    var st := EnvState("", 0, refs, []);
    var s, e := pre + Source(env.key, d) + post, |pre| + |Source(env.key, d)|;
    assert s[..|pre|] == pre && s[|pre|..e] == Source(env.key, d) && s[e..] == post;
    ParseDeclAt(s, |pre|, env.key, d);
    ScanAround(s, pre, prefix, path, env, refs, d, e);
    StepAppends(env, prefix, path, st.(out := pre), d);
    assert st.(out := pre).(out := "") == st;
    AloneIsStep(prefix, path, env, refs, d);
  }
}
