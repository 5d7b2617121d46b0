/**
 * The preprocessor itself: its configuration, the default table of
 * environments, and `run`, which numbers every environment of every chapter
 * and only then resolves the references of every chapter.
 *
 * The book is the sequence of its chapters in the order in which mdBook's
 * `for_each_mut` visits them, which puts a chapter's sub-chapters before the
 * chapter itself; this order decides which of two chapters declaring the same
 * label is registered. The sequence is held in an array whose elements `run`
 * rewrites in place. A chapter without a path is a draft and is left alone.
 */
module Book {
  import opened Text
  import opened Envs
  import Refs
  import Paths

  /** A chapter as the preprocessor sees it; `number` is the rendered section number, e.g. `1.2.`. */
  datatype Chapter = Chapter(content: string, path: Option<string>, number: Option<string>)

  /** `NumThmPreprocessor`: the environments, in order, and whether numbers carry the section number. */
  datatype Config = Config(envs: seq<Env>, withPrefix: bool)

  /** mdBook's `is_draft_chapter`: a chapter without a source file. */
  predicate IsDraft(c: Chapter)
  {
    c.path.None?
  }

  /**
   * `Default::default`: theorem, lemma, proposition and definition in bold,
   * remark in italics, no prefix. Every key is a lower-case word, so the key,
   * which `find_and_replace_envs` pastes into its pattern unescaped, matches
   * only itself.
   */
  function DefaultConfig(): (config: Config)
    ensures !config.withPrefix && |config.envs| == 5
    ensures forall i, j :: 0 <= i < j < |config.envs| ==> config.envs[i].key != config.envs[j].key
    ensures forall i :: 0 <= i < |config.envs| ==> PlainKey(config.envs[i].key)
    ensures forall i :: 0 <= i < |config.envs| ==> config.envs[i].emph != "" && config.envs[i].emph[0] != '<'
  {
    Config([Env("thm", "Theorem", "**"), Env("lem", "Lemma", "**"), Env("prop", "Proposition", "**"),
            Env("def", "Definition", "**"), Env("rem", "Remark", "*")], false)
  }

  /** A non-empty key of lower-case letters. */
  predicate PlainKey(key: string)
  {
    key != "" && forall m :: 0 <= m < |key| ==> 'a' <= key[m] <= 'z'
  }

  /**
   * Where a reference marker starts, no opener of a plain key does: the
   * environment passes leave every `{{ref:` and `{{tref:` for the reference pass.
   */
  lemma OpenerIsNotMarker(s: string, j: nat, key: string, kind: Refs.RefKind)
    requires PlainKey(key) && Refs.HasAt(s, j, "{{" + Refs.Keyword(kind))
    ensures !OpenerAt(s, j, key)
  {
    var w, o := "{{" + Refs.Keyword(kind), Opener(key);
    var kw := Refs.Keyword(kind);
    // a short key's closing `}` meets a letter or the `:` of the keyword;
    // a long key would have to hold the keyword's closing `:`
    var t := if |key| < |kw| then 2 + |key| else 1 + |kw|;
    assert o[t] != w[t];
    SharedChar(s, j, o, w, t);
  }

  /** Two words both written at `j` agree wherever both are defined. */
  lemma SharedChar(s: string, j: nat, a: string, b: string, t: nat)
    ensures Refs.HasAt(s, j, a) && Refs.HasAt(s, j, b) && t < |a| && t < |b| ==> a[t] == b[t]
  {
    if Refs.HasAt(s, j, a) && Refs.HasAt(s, j, b) && t < |a| && t < |b| {
      assert a[t] == s[j + t] == b[t];
    }
  }

  /** The section-number prefix of a chapter's numbers. */
  function Prefix(config: Config, c: Chapter): (p: string)
    ensures config.withPrefix && c.number.Some? ==> p == c.number.value
    ensures p != "" ==> config.withPrefix && c.number == Some(p)
  {
    if config.withPrefix then
      match c.number
      case Some(sn) => sn
      case None => ""
    else ""
  }

  // ---------------------------------------------------------------------------
  // First pass: numbering

  /** A chapter's text, registry and warnings while the environments are applied to it. */
  datatype EnvsAcc = EnvsAcc(content: string, refs: Registry, warnings: seq<Warning>)

  /** `find_and_replace_envs` for every environment in turn, each on the previous one's output. */
  function ApplyEnvs(envs: seq<Env>, prefix: string, path: string, acc: EnvsAcc): EnvsAcc
    decreases |envs|
  {
    if envs == [] then acc
    else
      var r := ReplaceEnvs(acc.content, prefix, path, envs[0], acc.refs);
      ApplyEnvs(envs[1..], prefix, path, EnvsAcc(r.out, r.refs, acc.warnings + r.warnings))
  }

  /** The text one environment kind makes of `s`: every marker replaced, numbered from 1. */
  function EnvText(s: string, prefix: string, env: Env): string
  {
    var ps := Tokenize(s, env.key, 0);
    RenderAll(env, prefix, Numbers(0, ps), ps)
  }

  /** The text all environment kinds make of `s`, in order; no registry involved. */
  function EnvsText(envs: seq<Env>, prefix: string, s: string): string
    decreases |envs|
  {
    if envs == [] then s else EnvsText(envs[1..], prefix, EnvText(s, prefix, envs[0]))
  }

  /** A chapter after the first pass, computed from that chapter alone. */
  function Numbered(config: Config, c: Chapter): Chapter
  {
    if IsDraft(c) then c else c.(content := EnvsText(config.envs, Prefix(config, c), c.content))
  }

  /** The chapters done so far, the registry and the warnings. */
  datatype Pass = Pass(done: seq<Chapter>, refs: Registry, warnings: seq<Warning>)

  /** The first pass on one chapter. */
  function NumberStep(config: Config, acc: Pass, c: Chapter): Pass
  {
    if IsDraft(c) then acc.(done := acc.done + [c])
    else
      var r := ApplyEnvs(config.envs, Prefix(config, c), c.path.value, EnvsAcc(c.content, acc.refs, acc.warnings));
      Pass(acc.done + [c.(content := r.content)], r.refs, r.warnings)
  }

  /** The first pass on the remaining chapters. */
  function NumberFrom(config: Config, acc: Pass, cs: seq<Chapter>): Pass
    decreases |cs|
  {
    if cs == [] then acc else NumberFrom(config, NumberStep(config, acc, cs[0]), cs[1..])
  }

  /** The whole first pass, from an empty registry. */
  function NumberBook(config: Config, cs: seq<Chapter>): Pass
  {
    NumberFrom(config, Pass([], map[], []), cs)
  }

  // ---------------------------------------------------------------------------
  // Second pass: references

  /** A chapter after the second pass against the registry `refs`. */
  function ResolveChapter(c: Chapter, refs: Registry): Refs.Resolved
  {
    if IsDraft(c) then Refs.Resolved(c.content, [])
    else Refs.FindAndReplaceRefs(c.content, c.path.value, refs)
  }

  /** The second pass on one chapter; the registry is only read. */
  function ResolveStep(acc: Pass, c: Chapter): Pass
  {
    var r := ResolveChapter(c, acc.refs);
    acc.(done := acc.done + [c.(content := r.text)], warnings := acc.warnings + r.warnings)
  }

  /** The second pass on the remaining chapters. */
  function ResolveFrom(acc: Pass, cs: seq<Chapter>): Pass
    decreases |cs|
  {
    if cs == [] then acc else ResolveFrom(ResolveStep(acc, cs[0]), cs[1..])
  }

  /** `run`: the first pass over all chapters, then the second over all chapters. */
  function RunSpec(config: Config, cs: seq<Chapter>): Pass
  {
    var p := NumberBook(config, cs);
    ResolveFrom(Pass([], p.refs, p.warnings), p.done)
  }

  // ---------------------------------------------------------------------------
  // The driver

  /** The loop over `self.envs` for one chapter. */
  method ApplyEnvsToChapter(envs: seq<Env>, prefix: string, path: string, content: string,
                            refs: Registry, warnings: seq<Warning>)
    returns (content': string, refs': Registry, warnings': seq<Warning>)
    ensures EnvsAcc(content', refs', warnings') == ApplyEnvs(envs, prefix, path, EnvsAcc(content, refs, warnings))
  {
    content', refs', warnings' := content, refs, warnings;
    var j := 0;
    while j < |envs|
      invariant j <= |envs|
      invariant ApplyEnvs(envs[j..], prefix, path, EnvsAcc(content', refs', warnings'))
        == ApplyEnvs(envs, prefix, path, EnvsAcc(content, refs, warnings))
    {
      var out, w;
      out, refs', w := FindAndReplaceEnvs(content', prefix, path, envs[j], refs');
      content', warnings' := out, warnings' + w;
      assert envs[j..][1..] == envs[j + 1..];
      j := j + 1;
    }
  }

  /** The first `for_each_mut` of `run`: numbers every non-draft chapter in place. */
  method NumberChapters(config: Config, book: array<Chapter>) returns (refs: Registry, warnings: seq<Warning>)
    modifies book
    ensures Pass(book[..], refs, warnings) == NumberBook(config, old(book[..]))
  {
    ghost var input := book[..];
    refs, warnings := map[], [];
    var i := 0;
    while i < book.Length
      invariant i <= book.Length
      invariant book[i..] == input[i..]
      invariant NumberFrom(config, Pass(book[..i], refs, warnings), input[i..]) == NumberBook(config, input)
    {
      ghost var before := Pass(book[..i], refs, warnings);
      var c := book[i];
      if c.path.Some? {
        var prefix := if config.withPrefix && c.number.Some? then c.number.value else "";
        var content;
        content, refs, warnings := ApplyEnvsToChapter(config.envs, prefix, c.path.value, c.content, refs, warnings);
        book[i] := c.(content := content);
      }
      assert book[..i + 1] == book[..i] + [book[i]];
      assert Pass(book[..i + 1], refs, warnings) == NumberStep(config, before, input[i]);
      NumberFromUnfold(config, before, input, i);
      i := i + 1;
    }
    assert input[i..] == [];
    assert book[..i] == book[..];
  }

  lemma NumberFromUnfold(config: Config, acc: Pass, cs: seq<Chapter>, i: nat)
    requires i < |cs|
    ensures NumberFrom(config, acc, cs[i..]) == NumberFrom(config, NumberStep(config, acc, cs[i]), cs[i + 1..])
  {
    assert cs[i..][1..] == cs[i + 1..];
  }

  /** The second `for_each_mut` of `run`: resolves the references of every non-draft chapter in place. */
  method ResolveChapters(book: array<Chapter>, refs: Registry, warnings: seq<Warning>)
    returns (warnings': seq<Warning>)
    modifies book
    ensures Pass(book[..], refs, warnings') == ResolveFrom(Pass([], refs, warnings), old(book[..]))
  {
    ghost var input := book[..];
    warnings' := warnings;
    var i := 0;
    while i < book.Length
      invariant i <= book.Length
      invariant book[i..] == input[i..]
      invariant ResolveFrom(Pass(book[..i], refs, warnings'), input[i..]) == ResolveFrom(Pass([], refs, warnings), input)
    {
      ghost var before := Pass(book[..i], refs, warnings');
      var c := book[i];
      if c.path.Some? {
        var r := Refs.FindAndReplaceRefs(c.content, c.path.value, refs);
        book[i] := c.(content := r.text);
        warnings' := warnings' + r.warnings;
      }
      assert book[..i + 1] == book[..i] + [book[i]];
      assert Pass(book[..i + 1], refs, warnings') == ResolveStep(before, input[i]);
      ResolveFromUnfold(before, input, i);
      i := i + 1;
    }
    assert input[i..] == [];
    assert book[..i] == book[..];
  }

  lemma ResolveFromUnfold(acc: Pass, cs: seq<Chapter>, i: nat)
    requires i < |cs|
    ensures ResolveFrom(acc, cs[i..]) == ResolveFrom(ResolveStep(acc, cs[i]), cs[i + 1..])
  {
    assert cs[i..][1..] == cs[i + 1..];
  }

  /**
   * `run`: rewrites every non-draft chapter of `book` in place and returns the
   * warnings, first those of the numbering pass, then those of the reference pass.
   */
  method Run(config: Config, book: array<Chapter>) returns (warnings: seq<Warning>)
    modifies book
    ensures book[..] == RunSpec(config, old(book[..])).done
    ensures warnings == RunSpec(config, old(book[..])).warnings
  {
    var refs, w := NumberChapters(config, book);
    warnings := ResolveChapters(book, refs, w);
  }

  // ---------------------------------------------------------------------------
  // Properties

  /**
   * The text a chapter gets from its environments does not depend on the
   * registry, the path or the other chapters: numbering restarts at 1 for every
   * environment kind in every chapter.
   */
  lemma {:induction false} ApplyEnvsText(envs: seq<Env>, prefix: string, path: string, acc: EnvsAcc)
    ensures ApplyEnvs(envs, prefix, path, acc).content == EnvsText(envs, prefix, acc.content)
    decreases |envs|
  {
    if envs != [] {
      var r := ReplaceEnvs(acc.content, prefix, path, envs[0], acc.refs);
      NumberingByOccurrence(acc.content, prefix, path, envs[0], acc.refs);
      ApplyEnvsText(envs[1..], prefix, path, EnvsAcc(r.out, r.refs, acc.warnings + r.warnings));
    }
  }

  /** Applying the environments keeps every registry entry and every earlier warning. */
  lemma {:induction false} ApplyEnvsKeeps(envs: seq<Env>, prefix: string, path: string, acc: EnvsAcc)
    ensures var r := ApplyEnvs(envs, prefix, path, acc);
      (forall l :: l in acc.refs ==> l in r.refs && r.refs[l] == acc.refs[l])
      && |acc.warnings| <= |r.warnings| && r.warnings[..|acc.warnings|] == acc.warnings
    decreases |envs|
  {
    if envs != [] {
      var r := ReplaceEnvs(acc.content, prefix, path, envs[0], acc.refs);
      RegistryAfterEnvs(acc.content, prefix, path, envs[0], acc.refs);
      var acc1 := EnvsAcc(r.out, r.refs, acc.warnings + r.warnings);
      ApplyEnvsKeeps(envs[1..], prefix, path, acc1);
      var w := ApplyEnvs(envs, prefix, path, acc).warnings;
      assert w[..|acc1.warnings|][..|acc.warnings|] == w[..|acc.warnings|];
    }
  }

  /** The first pass on one chapter is `Numbered`, and keeps the registry's entries. */
  lemma NumberStepShape(config: Config, acc: Pass, c: Chapter)
    ensures var r := NumberStep(config, acc, c);
      r.done == acc.done + [Numbered(config, c)]
      && (forall l :: l in acc.refs ==> l in r.refs && r.refs[l] == acc.refs[l])
  {
    if !IsDraft(c) {
      var e := EnvsAcc(c.content, acc.refs, acc.warnings);
      ApplyEnvsText(config.envs, Prefix(config, c), c.path.value, e);
      ApplyEnvsKeeps(config.envs, Prefix(config, c), c.path.value, e);
    }
  }

  /**
   * The first pass turns each chapter into `Numbered` of it, whatever came
   * before, and never drops or changes a registry entry.
   */
  lemma {:induction false} NumberFromShape(config: Config, acc: Pass, cs: seq<Chapter>)
    ensures var r := NumberFrom(config, acc, cs);
      |r.done| == |acc.done| + |cs| && r.done[..|acc.done|] == acc.done
      && (forall k :: 0 <= k < |cs| ==> r.done[|acc.done| + k] == Numbered(config, cs[k]))
      && (forall l :: l in acc.refs ==> l in r.refs && r.refs[l] == acc.refs[l])
    decreases |cs|
  {
    if cs != [] {
      var acc1 := NumberStep(config, acc, cs[0]);
      NumberStepShape(config, acc, cs[0]);
      NumberFromShape(config, acc1, cs[1..]);
      var r := NumberFrom(config, acc, cs);
      assert r.done[..|acc1.done|][..|acc.done|] == r.done[..|acc.done|];
      forall k | 0 <= k < |cs| ensures r.done[|acc.done| + k] == Numbered(config, cs[k]) {
        if k == 0 {
          assert r.done[..|acc1.done|][|acc.done|] == r.done[|acc.done|];
        } else {
          assert cs[1..][k - 1] == cs[k];
        }
      }
    }
  }

  /** The second pass resolves each chapter against the same registry and changes nothing else. */
  lemma {:induction false} ResolveFromShape(acc: Pass, cs: seq<Chapter>)
    ensures var r := ResolveFrom(acc, cs);
      |r.done| == |acc.done| + |cs| && r.done[..|acc.done|] == acc.done && r.refs == acc.refs
      && (forall k :: 0 <= k < |cs| ==>
            r.done[|acc.done| + k] == cs[k].(content := ResolveChapter(cs[k], acc.refs).text))
    decreases |cs|
  {
    if cs != [] {
      var acc1 := ResolveStep(acc, cs[0]);
      ResolveFromShape(acc1, cs[1..]);
      var r := ResolveFrom(acc, cs);
      assert r.done[..|acc1.done|][..|acc.done|] == r.done[..|acc.done|];
      forall k | 0 <= k < |cs|
        ensures r.done[|acc.done| + k] == cs[k].(content := ResolveChapter(cs[k], acc.refs).text)
      {
        if k == 0 {
          assert r.done[..|acc1.done|][|acc.done|] == r.done[|acc.done|];
        } else {
          assert cs[1..][k - 1] == cs[k];
        }
      }
    }
  }

  /**
   * What `run` makes of each chapter: drafts are returned unchanged; every
   * chapter keeps its path and number; a non-draft chapter's text is its own
   * text with all environments numbered, then every reference resolved against
   * the registry built from the whole book.
   */
  lemma RunOutput(config: Config, cs: seq<Chapter>)
    ensures var out, refs := RunSpec(config, cs).done, NumberBook(config, cs).refs;
      |out| == |cs|
      && (forall k :: 0 <= k < |cs| ==> out[k].path == cs[k].path && out[k].number == cs[k].number)
      && (forall k :: 0 <= k < |cs| && IsDraft(cs[k]) ==> out[k] == cs[k])
      && (forall k :: 0 <= k < |cs| && !IsDraft(cs[k]) ==>
            out[k].content
            == Refs.FindAndReplaceRefs(EnvsText(config.envs, Prefix(config, cs[k]), cs[k].content),
                                       cs[k].path.value, refs).text)
  {
    var p := NumberBook(config, cs);
    var out := RunSpec(config, cs).done;
    NumberBookShape(config, cs);
    ResolveShape(p.refs, p.warnings, p.done);
    forall k | 0 <= k < |cs|
      ensures out[k] == Outcome(config, cs[k], p.refs)
    {
      assert p.done[k] == Numbered(config, cs[k]);
    }
    forall k | 0 <= k < |cs| {
      OutcomeOf(config, cs[k], p.refs);
    }
  }

  /** The first pass yields one numbered chapter per chapter, in order. */
  lemma NumberBookShape(config: Config, cs: seq<Chapter>)
    ensures var done := NumberBook(config, cs).done;
      |done| == |cs| && forall k :: 0 <= k < |cs| ==> done[k] == Numbered(config, cs[k])
  {
    var acc := Pass([], map[], []);
    NumberFromShape(config, acc, cs);
    var done := NumberBook(config, cs).done;
    forall k | 0 <= k < |cs| ensures done[k] == Numbered(config, cs[k]) {
      assert done[|acc.done| + k] == Numbered(config, cs[k]);
    }
  }

  /** The second pass yields one resolved chapter per chapter, in order, and keeps the registry. */
  lemma ResolveShape(refs: Registry, warnings: seq<Warning>, cs: seq<Chapter>)
    ensures var done := ResolveFrom(Pass([], refs, warnings), cs).done;
      |done| == |cs| && forall k :: 0 <= k < |cs| ==> done[k] == cs[k].(content := ResolveChapter(cs[k], refs).text)
  {
    var acc := Pass([], refs, warnings);
    ResolveFromShape(acc, cs);
    var done := ResolveFrom(acc, cs).done;
    forall k | 0 <= k < |cs| ensures done[k] == cs[k].(content := ResolveChapter(cs[k], refs).text) {
      assert done[|acc.done| + k] == cs[k].(content := ResolveChapter(cs[k], refs).text);
    }
  }

  /** What both passes make of one chapter, given the finished registry. */
  function Outcome(config: Config, c: Chapter, refs: Registry): Chapter
  {
    Numbered(config, c).(content := ResolveChapter(Numbered(config, c), refs).text)
  }

  /** A chapter keeps its path and number; a draft is untouched; other chapters get both passes. */
  lemma OutcomeOf(config: Config, c: Chapter, refs: Registry)
    ensures var o := Outcome(config, c, refs);
      o.path == c.path && o.number == c.number
      && (IsDraft(c) ==> o == c)
      && (!IsDraft(c) ==>
            o.content == Refs.FindAndReplaceRefs(EnvsText(config.envs, Prefix(config, c), c.content), c.path.value, refs).text)
  {
  }

  /** Numbering a book in two parts is numbering the first part, then the second. */
  lemma {:induction false} NumberFromSplit(config: Config, acc: Pass, a: seq<Chapter>, b: seq<Chapter>)
    ensures NumberFrom(config, acc, a + b) == NumberFrom(config, NumberFrom(config, acc, a), b)
    decreases |a|
  {
    if a == [] {
      assert a + b == b;
    } else {
      assert (a + b)[0] == a[0];
      assert (a + b)[1..] == a[1..] + b;
      NumberFromSplit(config, NumberStep(config, acc, a[0]), a[1..], b);
    }
  }

  /**
   * Every reference is resolved against the registry of the whole book: a label
   * registered while numbering the first `j` chapters is in the final registry
   * with the same entry, so a chapter may refer to a label declared in a later one.
   */
  lemma RegistryOfPrefix(config: Config, cs: seq<Chapter>, j: nat)
    requires j <= |cs|
    ensures var early, refs := NumberBook(config, cs[..j]).refs, NumberBook(config, cs).refs;
      forall l :: l in early ==> l in refs && refs[l] == early[l]
  {
    var init := Pass([], map[], []);
    assert cs == cs[..j] + cs[j..];
    NumberFromSplit(config, init, cs[..j], cs[j..]);
    NumberFromShape(config, NumberFrom(config, init, cs[..j]), cs[j..]);
  }

  // ---------------------------------------------------------------------------
  // Which labels the registry holds

  /** The labels the environment passes capture in `s`, each pass reading the previous one's text. */
  function EnvsLabels(envs: seq<Env>, prefix: string, s: string): set<string>
    decreases |envs|
  {
    if envs == [] then {}
    else Labels(Tokenize(s, envs[0].key, 0)) + EnvsLabels(envs[1..], prefix, EnvText(s, prefix, envs[0]))
  }

  /** The labels a chapter declares; a draft declares none. */
  function ChapterLabels(config: Config, c: Chapter): set<string>
  {
    if IsDraft(c) then {} else EnvsLabels(config.envs, Prefix(config, c), c.content)
  }

  /** The labels declared anywhere in the book. */
  function BookLabels(config: Config, cs: seq<Chapter>): set<string>
  {
    set k, l | 0 <= k < |cs| && l in ChapterLabels(config, cs[k]) :: l
  }

  /** Chapter `k` declares `l` and no chapter before it does. */
  predicate FirstDeclarer(config: Config, cs: seq<Chapter>, l: string, k: int)
  {
    0 <= k < |cs| && l in ChapterLabels(config, cs[k])
    && forall i :: 0 <= i < k ==> l !in ChapterLabels(config, cs[i])
  }

  /**
   * Applying the environments to a chapter adds exactly the labels its markers
   * capture, and every added entry records the chapter's path.
   */
  lemma {:induction false} ApplyEnvsKeys(envs: seq<Env>, prefix: string, path: string, acc: EnvsAcc)
    ensures var r := ApplyEnvs(envs, prefix, path, acc);
      r.refs.Keys == acc.refs.Keys + EnvsLabels(envs, prefix, acc.content)
      && (forall l :: l in r.refs && l !in acc.refs ==> r.refs[l].path == path)
    decreases |envs|
  {
    if envs != [] {
      var r := ReplaceEnvs(acc.content, prefix, path, envs[0], acc.refs);
      RegistryAfterEnvs(acc.content, prefix, path, envs[0], acc.refs);
      NumberingByOccurrence(acc.content, prefix, path, envs[0], acc.refs);
      var acc1 := EnvsAcc(r.out, r.refs, acc.warnings + r.warnings);
      assert r.out == EnvText(acc.content, prefix, envs[0]);
      ApplyEnvsKeys(envs[1..], prefix, path, acc1);
      ApplyEnvsKeeps(envs[1..], prefix, path, acc1);
    }
  }

  /** The first pass on one chapter adds exactly the chapter's labels, each recording its path. */
  lemma NumberStepKeys(config: Config, acc: Pass, c: Chapter)
    ensures var r := NumberStep(config, acc, c);
      r.refs.Keys == acc.refs.Keys + ChapterLabels(config, c)
      && (forall l :: l in r.refs && l !in acc.refs ==> Some(r.refs[l].path) == c.path)
  {
    if !IsDraft(c) {
      ApplyEnvsKeys(config.envs, Prefix(config, c), c.path.value, EnvsAcc(c.content, acc.refs, acc.warnings));
    }
  }

  lemma BookLabelsCons(config: Config, cs: seq<Chapter>)
    requires cs != []
    ensures BookLabels(config, cs) == ChapterLabels(config, cs[0]) + BookLabels(config, cs[1..])
  {
    forall l | l in BookLabels(config, cs)
      ensures l in ChapterLabels(config, cs[0]) + BookLabels(config, cs[1..])
    {
      var k :| 0 <= k < |cs| && l in ChapterLabels(config, cs[k]);
      if k > 0 {
        assert cs[1..][k - 1] == cs[k];
      }
    }
    forall l | l in BookLabels(config, cs[1..])
      ensures l in BookLabels(config, cs)
    {
      var k :| 0 <= k < |cs[1..]| && l in ChapterLabels(config, cs[1..][k]);
      assert cs[k + 1] == cs[1..][k];
    }
  }

  lemma FirstDeclarerLater(config: Config, cs: seq<Chapter>, l: string, k: int)
    requires FirstDeclarer(config, cs, l, k) && k > 0
    ensures FirstDeclarer(config, cs[1..], l, k - 1) && l !in ChapterLabels(config, cs[0])
  {
    forall i | 0 <= i < k - 1 ensures l !in ChapterLabels(config, cs[1..][i]) {
      assert cs[1..][i] == cs[i + 1];
    }
  }

  /**
   * The first pass over the remaining chapters adds exactly the labels they
   * declare, and a new label's entry records the path of the first chapter
   * declaring it: a later declaration of the same label does not replace it.
   */
  lemma {:induction false} NumberFromKeys(config: Config, acc: Pass, cs: seq<Chapter>)
    ensures var r := NumberFrom(config, acc, cs);
      r.refs.Keys == acc.refs.Keys + BookLabels(config, cs)
      && (forall l, k :: FirstDeclarer(config, cs, l, k) && l !in acc.refs ==>
            l in r.refs && Some(r.refs[l].path) == cs[k].path)
    decreases |cs|
  {
    if cs == [] {
      assert BookLabels(config, cs) == {};
    } else {
      var acc1 := NumberStep(config, acc, cs[0]);
      var r := NumberFrom(config, acc, cs);
      NumberStepKeys(config, acc, cs[0]);
      NumberFromKeys(config, acc1, cs[1..]);
      NumberFromShape(config, acc1, cs[1..]);
      BookLabelsCons(config, cs);
      forall l, k | FirstDeclarer(config, cs, l, k) && l !in acc.refs
        ensures l in r.refs && Some(r.refs[l].path) == cs[k].path
      {
        if k > 0 {
          FirstDeclarerLater(config, cs, l, k);
          assert cs[1..][k - 1] == cs[k];
        }
      }
    }
  }

  /**
   * The registry of the whole book: its labels are exactly those declared in
   * some chapter, and each records the path of the first chapter, in
   * `for_each_mut` order, that declares it.
   */
  lemma RegistryOfBook(config: Config, cs: seq<Chapter>)
    ensures var refs := NumberBook(config, cs).refs;
      refs.Keys == BookLabels(config, cs)
      && (forall l, k :: FirstDeclarer(config, cs, l, k) ==> l in refs && Some(refs[l].path) == cs[k].path)
  {
    NumberFromKeys(config, Pass([], map[], []), cs);
  }

  /**
   * A reference in chapter `k` to a label declared in chapter `j`, before or
   * after it: once both passes have run, the marker has become the link to
   * the registered entry, and the text around it is unchanged.
   */
  lemma ReferenceToDeclaredLabel(config: Config, cs: seq<Chapter>, j: nat, k: nat, kind: Refs.RefKind,
                                 space: string, lbl: string, pre: string, post: string)
    requires j < |cs| && k < |cs| && lbl in ChapterLabels(config, cs[j]) && !IsDraft(cs[k])
    requires Numbered(config, cs[k]).content == pre + Refs.RefSource(Refs.Ref(kind, space, lbl)) + post
    requires Refs.Canonical(space, lbl) && Refs.NoDoubleBrace(pre + "{") && Refs.NoDoubleBrace(post)
    ensures var refs, out := NumberBook(config, cs).refs, RunSpec(config, cs).done;
      lbl in refs && |out| == |cs|
      && out[k].content
         == pre + ("[" + Refs.LinkText(kind, refs[lbl]) + "](" + Paths.ComputeRelPath(cs[k].path.value, refs[lbl].path)
                   + "#" + lbl + ")") + post
  {
    var refs := NumberBook(config, cs).refs;
    RegistryOfBook(config, cs);
    assert lbl in BookLabels(config, cs);
    RunOutput(config, cs);
    Refs.ReferenceInTextResolves(pre, post, kind, space, lbl, cs[k].path.value, refs);
  }

  /**
   * A reference to a label no chapter declares: once both passes have run, the
   * marker has become the `**[??]**` placeholder.
   */
  lemma ReferenceToUndeclaredLabel(config: Config, cs: seq<Chapter>, k: nat, kind: Refs.RefKind,
                                   space: string, lbl: string, pre: string, post: string)
    requires k < |cs| && (forall j :: 0 <= j < |cs| ==> lbl !in ChapterLabels(config, cs[j])) && !IsDraft(cs[k])
    requires Numbered(config, cs[k]).content == pre + Refs.RefSource(Refs.Ref(kind, space, lbl)) + post
    requires Refs.Canonical(space, lbl) && Refs.NoDoubleBrace(pre + "{") && Refs.NoDoubleBrace(post)
    ensures var refs, out := NumberBook(config, cs).refs, RunSpec(config, cs).done;
      lbl !in refs && |out| == |cs| && out[k].content == pre + "**[??]**" + post
  {
    var refs := NumberBook(config, cs).refs;
    RegistryOfBook(config, cs);
    assert lbl !in BookLabels(config, cs);
    RunOutput(config, cs);
    Refs.ReferenceInTextResolves(pre, post, kind, space, lbl, cs[k].path.value, refs);
  }

  /**
   * A reference written in chapter `k`'s own text, to a label declared in
   * chapter `j`: the environment passes leave the marker alone, and the
   * reference pass turns it into the link to the registered entry.
   */
  lemma ReferenceInSourceToDeclaredLabel(config: Config, cs: seq<Chapter>, j: nat, k: nat, kind: Refs.RefKind,
                                         space: string, lbl: string, pre: string, post: string)
    requires j < |cs| && k < |cs| && lbl in ChapterLabels(config, cs[j]) && !IsDraft(cs[k])
    requires forall e :: 0 <= e < |config.envs| ==> PlainKey(config.envs[e].key)
    requires cs[k].content == pre + Refs.RefSource(Refs.Ref(kind, space, lbl)) + post
    requires Refs.Canonical(space, lbl) && Refs.NoDoubleBrace(pre + "{") && Refs.NoDoubleBrace(post)
    requires Refs.NoDoubleBrace(lbl)
    ensures var refs, out := NumberBook(config, cs).refs, RunSpec(config, cs).done;
      lbl in refs && |out| == |cs|
      && out[k].content
         == pre + ("[" + Refs.LinkText(kind, refs[lbl]) + "](" + Paths.ComputeRelPath(cs[k].path.value, refs[lbl].path)
                   + "#" + lbl + ")") + post
  {
    MarkerSurvivesEnvs(config.envs, Prefix(config, cs[k]), pre, post, kind, space, lbl);
    ReferenceToDeclaredLabel(config, cs, j, k, kind, space, lbl, pre, post);
  }

  /**
   * A reference written in chapter `k`'s own text to a label no chapter
   * declares: after both passes it is the `**[??]**` placeholder.
   */
  lemma ReferenceInSourceToUndeclaredLabel(config: Config, cs: seq<Chapter>, k: nat, kind: Refs.RefKind,
                                           space: string, lbl: string, pre: string, post: string)
    requires k < |cs| && (forall j :: 0 <= j < |cs| ==> lbl !in ChapterLabels(config, cs[j])) && !IsDraft(cs[k])
    requires forall e :: 0 <= e < |config.envs| ==> PlainKey(config.envs[e].key)
    requires cs[k].content == pre + Refs.RefSource(Refs.Ref(kind, space, lbl)) + post
    requires Refs.Canonical(space, lbl) && Refs.NoDoubleBrace(pre + "{") && Refs.NoDoubleBrace(post)
    requires Refs.NoDoubleBrace(lbl)
    ensures var refs, out := NumberBook(config, cs).refs, RunSpec(config, cs).done;
      lbl !in refs && |out| == |cs| && out[k].content == pre + "**[??]**" + post
  {
    MarkerSurvivesEnvs(config.envs, Prefix(config, cs[k]), pre, post, kind, space, lbl);
    ReferenceToUndeclaredLabel(config, cs, k, kind, space, lbl, pre, post);
  }

  /** Text whose only `{{` opens a reference marker is left as it is by every environment pass. */
  lemma {:induction false} MarkerSurvivesEnvs(envs: seq<Env>, prefix: string, pre: string, post: string,
                                              kind: Refs.RefKind, space: string, lbl: string)
    requires forall e :: 0 <= e < |envs| ==> PlainKey(envs[e].key)
    requires Refs.Canonical(space, lbl) && Refs.NoDoubleBrace(pre + "{") && Refs.NoDoubleBrace(post)
    requires Refs.NoDoubleBrace(lbl)
    ensures var s := pre + Refs.RefSource(Refs.Ref(kind, space, lbl)) + post;
      EnvsText(envs, prefix, s) == s
    decreases |envs|
  {
    if envs != [] {
      var s := pre + Refs.RefSource(Refs.Ref(kind, space, lbl)) + post;
      var env := envs[0];
      var m := "{{" + Refs.Keyword(kind);
      assert Refs.HasAt(s, |pre|, m) by { assert s[|pre|..|pre| + |m|] == m; }
      OpenerIsNotMarker(s, |pre|, env.key, kind);
      forall i | 0 <= i
        ensures !OpenerAt(s, i, env.key)
      {
        OpenerOpens(s, i, env.key);
        OnlyMarkerOpens(pre, post, kind, space, lbl, i);
      }
      NoMarkerUnchanged(s, prefix, "", env, map[]);
      NumberingByOccurrence(s, prefix, "", env, map[]);
      MarkerSurvivesEnvs(envs[1..], prefix, pre, post, kind, space, lbl);
    }
  }

  /** An opener starts with `{{`. */
  lemma OpenerOpens(s: string, i: nat, key: string)
    ensures OpenerAt(s, i, key) ==> Refs.OpensAt(s, i)
  {
    if OpenerAt(s, i, key) {
      assert s[i..i + |Opener(key)|] == Opener(key);
    }
  }

  /** In such a text, `{{` occurs only where the marker starts. */
  lemma OnlyMarkerOpens(pre: string, post: string, kind: Refs.RefKind, space: string, lbl: string, i: nat)
    requires Refs.Canonical(space, lbl) && Refs.NoDoubleBrace(pre + "{") && Refs.NoDoubleBrace(post)
    requires Refs.NoDoubleBrace(lbl)
    ensures Refs.OpensAt(pre + Refs.RefSource(Refs.Ref(kind, space, lbl)) + post, i) ==> i == |pre|
  {
    var m := Refs.RefSource(Refs.Ref(kind, space, lbl));
    var s := pre + m + post;
    if i < |pre| {
      assert Refs.OpensAt(s, i) ==> Refs.OpensAt(pre + "{", i);
    } else if i >= |pre| + |m| {
      assert Refs.OpensAt(s, i) ==> Refs.OpensAt(post, i - |pre| - |m|);
    } else if i > |pre| {
      assert m[|m| - 1] == '}';
      assert Refs.OpensAt(s, i) ==> Refs.OpensAt(m, i - |pre|);
      MarkerOpensOnce(kind, space, lbl, i - |pre|);
    }
  }

  /** A marker holds `{{` only at its start, when its label holds none. */
  lemma MarkerOpensOnce(kind: Refs.RefKind, space: string, lbl: string, i: nat)
    requires Refs.Canonical(space, lbl) && Refs.NoDoubleBrace(lbl)
    ensures Refs.OpensAt(Refs.RefSource(Refs.Ref(kind, space, lbl)), i) ==> i == 0
  {
    var kw := Refs.Keyword(kind);
    var m := Refs.RefSource(Refs.Ref(kind, space, lbl));
    assert m == "{{" + kw + space + lbl + "}}";
    var a := 2 + |kw| + |space|;
    if i == 1 {
      assert m[2] == kw[0];
    } else if 2 <= i < 2 + |kw| {
      assert m[i] == kw[i - 2];
    } else if 2 + |kw| <= i < a {
      assert m[i] == space[i - 2 - |kw|];
    } else if a <= i < a + |lbl| {
      assert m[i] == lbl[i - a];
      if i + 1 < a + |lbl| {
        assert m[i + 1] == lbl[i + 1 - a];
        assert !Refs.OpensAt(lbl, i - a);
      }
    }
  }

  /**
   * A label declared by a marker in one file and referred to from another: the
   * link text is the declaration's numbered name (for `tref:`, its title when it
   * has one) and the link leads to the declaring file and the label's anchor.
   */
  lemma DeclareThenReference(env: Env, prefix: string, declPath: string, refPath: string,
                             lbl: string, title: Option<string>, kind: Refs.RefKind)
    requires WellFormedDecl(Decl(Some(lbl), title))
    requires lbl == "" || !IsWhitespace(lbl[0])
    ensures var refs := ReplaceEnvs(Source(env.key, Decl(Some(lbl), title)), prefix, declPath, env, map[]).refs;
      Refs.FindAndReplaceRefs("{{" + Refs.Keyword(kind) + lbl + "}}", refPath, refs)
      == Refs.Resolved("[" + (if kind == Refs.TitleRef && title.Some? then title.value else NumberedName(env, prefix, 1))
                       + "](" + Paths.ComputeRelPath(refPath, declPath) + "#" + lbl + ")", [])
  {
    var refs := ReplaceEnvs(Source(env.key, Decl(Some(lbl), title)), prefix, declPath, env, map[]).refs;
    DeclarationAlone(prefix, declPath, env, map[], Decl(Some(lbl), title));
    assert refs == map[lbl := LabelInfo(NumberedName(env, prefix, 1), declPath, title)];
    assert Refs.Canonical("", lbl) by { assert Refs.ClosesCleanly(lbl); }
    KnownMarker(kind, lbl, refPath, refs);
  }

  /** A bare marker naming a registered label resolves to its link, with no warning. */
  lemma KnownMarker(kind: Refs.RefKind, lbl: string, refPath: string, refs: Registry)
    requires Refs.Canonical("", lbl) && lbl in refs
    ensures Refs.FindAndReplaceRefs("{{" + Refs.Keyword(kind) + lbl + "}}", refPath, refs)
      == Refs.Resolved("[" + Refs.LinkText(kind, refs[lbl]) + "](" + Paths.ComputeRelPath(refPath, refs[lbl].path) + "#" + lbl + ")", [])
  {
    assert "{{" + Refs.Keyword(kind) + lbl + "}}" == "{{" + Refs.Keyword(kind) + "" + lbl + "}}";
    Refs.ResolveMarker(kind, "", lbl, refPath, refs);
  }
}
