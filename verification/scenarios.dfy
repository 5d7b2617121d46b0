/**
 * The behaviour pinned down by the unit tests of `src/lib.rs`, stated on the
 * model: the exact text of headers and anchors, the registry entry of a label,
 * and the links that references become, within one file and across folders.
 */
module Scenarios {
  import opened Text
  import opened Envs
  import Refs
  import Paths

  const Prop := Env("prop", "Proposition", "**")
  const SecNum := "1.2."
  const Lagrange := "prop:lagrange"
  const LagrangeTitle := "Lagrange Theorem"

  // One concrete fact each, so that every proof below stays small.
  lemma LagrangeIsPlain()
    ensures '}' !in Lagrange && ']' !in Lagrange && '\n' !in Lagrange && !IsWhitespace(Lagrange[0])
    ensures ']' !in LagrangeTitle && '\n' !in LagrangeTitle && Refs.ClosesCleanly(Lagrange)
  {
  }

  // Literal texts are assembled left to right, one short piece per step.
  lemma LagrangeAnchor()
    ensures Anchor(Some(Lagrange)) == "<a name=\"prop:lagrange\"></a>\n"
  {
    assert "<a name=\"" + Lagrange == "<a name=\"prop:lagrange";
    assert "<a name=\"prop:lagrange" + "\"></a>\n" == "<a name=\"prop:lagrange\"></a>\n";
  }

  lemma PropName()
    ensures NumberedName(Prop, SecNum, 1) == "Proposition 1.2.1"
  {
    assert DecimalString(1) == "1";
    assert "Proposition" + " " == "Proposition ";
    assert "Proposition " + SecNum == "Proposition 1.2.";
    assert "Proposition 1.2." + "1" == "Proposition 1.2.1";
  }

  lemma PlainHeader()
    ensures Header(Prop, SecNum, 1, None) == "**Proposition 1.2.1.**"
  {
    PropName();
    assert "**" + "Proposition 1.2.1" == "**Proposition 1.2.1";
    assert "**Proposition 1.2.1" + "." == "**Proposition 1.2.1.";
    assert "**Proposition 1.2.1." + "**" == "**Proposition 1.2.1.**";
  }

  lemma TitledHeader()
    ensures Header(Prop, SecNum, 1, Some(LagrangeTitle)) == "**Proposition 1.2.1 (Lagrange Theorem).**"
  {
    PropName();
    assert "**" + "Proposition 1.2.1" == "**Proposition 1.2.1";
    assert "**Proposition 1.2.1" + " (" == "**Proposition 1.2.1 (";
    assert "**Proposition 1.2.1 (" + LagrangeTitle == "**Proposition 1.2.1 (Lagrange Theorem";
    assert "**Proposition 1.2.1 (Lagrange Theorem" + ")." == "**Proposition 1.2.1 (Lagrange Theorem).";
    assert "**Proposition 1.2.1 (Lagrange Theorem)." + "**" == "**Proposition 1.2.1 (Lagrange Theorem).**";
  }

  lemma PropHeaders()
    ensures Header(Prop, SecNum, 1, None) == "**Proposition 1.2.1.**"
    ensures Header(Prop, SecNum, 1, Some(LagrangeTitle)) == "**Proposition 1.2.1 (Lagrange Theorem).**"
  {
    PlainHeader();
    TitledHeader();
  }

  lemma PropOpener()
    ensures Opener(Prop.key) == "{{prop}}"
  {
    assert "{{" + "prop" == "{{prop";
    assert "{{prop" + "}}" == "{{prop}}";
  }

  lemma LabelGroup()
    ensures "{" + Lagrange + "}" == "{prop:lagrange}"
  {
    assert "{" + Lagrange == "{prop:lagrange";
    assert "{prop:lagrange" + "}" == "{prop:lagrange}";
  }

  lemma TitleGroup()
    ensures "[" + LagrangeTitle + "]" == "[Lagrange Theorem]"
  {
    assert "[" + LagrangeTitle == "[Lagrange Theorem";
    assert "[Lagrange Theorem" + "]" == "[Lagrange Theorem]";
  }

  lemma PropSources()
    ensures Source(Prop.key, Decl(None, None)) == "{{prop}}"
    ensures Source(Prop.key, Decl(Some(Lagrange), None)) == "{{prop}}{prop:lagrange}"
    ensures Source(Prop.key, Decl(None, Some(LagrangeTitle))) == "{{prop}}[Lagrange Theorem]"
    ensures Source(Prop.key, Decl(Some(Lagrange), Some(LagrangeTitle))) == "{{prop}}{prop:lagrange}[Lagrange Theorem]"
  {
    PropOpener();
    LabelGroup();
    TitleGroup();
    assert "{{prop}}" + "" + "" == "{{prop}}";
    assert "{{prop}}" + "{prop:lagrange}" + "" == "{{prop}}{prop:lagrange}";
    assert "{{prop}}" + "" + "[Lagrange Theorem]" == "{{prop}}[Lagrange Theorem]";
    assert "{{prop}}" + "{prop:lagrange}" + "[Lagrange Theorem]" == "{{prop}}{prop:lagrange}[Lagrange Theorem]";
  }

  /** `{{prop}}` alone: a bare header, nothing registered. */
  lemma PropositionWithoutLabel()
    ensures ReplaceEnvs("{{prop}}", SecNum, "crypto/groups.md", Prop, map[])
      == EnvState("**Proposition 1.2.1.**", 1, map[], [])
  {
    PropSources();
    PropHeaders();
    DeclarationAlone(SecNum, "crypto/groups.md", Prop, map[], Decl(None, None));
  }

  /** `{{prop}}{prop:lagrange}`: an anchor, the header, and one registry entry. */
  lemma PropositionWithLabel()
    ensures ReplaceEnvs("{{prop}}{prop:lagrange}", SecNum, "crypto/groups.md", Prop, map[])
      == EnvState("<a name=\"prop:lagrange\"></a>\n" + "**Proposition 1.2.1.**", 1,
                  map[Lagrange := LabelInfo("Proposition 1.2.1", "crypto/groups.md", None)], [])
  {
    LagrangeIsPlain();
    PropSources();
    LagrangeAnchor();
    PropName();
    PropHeaders();
    DeclarationAlone(SecNum, "crypto/groups.md", Prop, map[], Decl(Some(Lagrange), None));
  }

  /** `{{prop}}[Lagrange Theorem]`: the title in parentheses, nothing registered. */
  lemma PropositionWithTitle()
    ensures ReplaceEnvs("{{prop}}[Lagrange Theorem]", SecNum, "crypto/groups.md", Prop, map[])
      == EnvState("**Proposition 1.2.1 (Lagrange Theorem).**", 1, map[], [])
  {
    LagrangeIsPlain();
    PropSources();
    PropHeaders();
    DeclarationAlone(SecNum, "crypto/groups.md", Prop, map[], Decl(None, Some(LagrangeTitle)));
  }

  /** `{{prop}}{prop:lagrange}[Lagrange Theorem]`: anchor, titled header, entry with the title. */
  lemma PropositionWithLabelAndTitle(path: string)
    ensures ReplaceEnvs("{{prop}}{prop:lagrange}[Lagrange Theorem]", SecNum, path, Prop, map[])
      == EnvState("<a name=\"prop:lagrange\"></a>\n" + "**Proposition 1.2.1 (Lagrange Theorem).**", 1,
                  Declared(path, Some(LagrangeTitle)), [])
  {
    LagrangeIsPlain();
    PropSources();
    LagrangeAnchor();
    PropName();
    PropHeaders();
    DeclarationAlone(SecNum, path, Prop, map[], Decl(Some(Lagrange), Some(LagrangeTitle)));
  }

  // The double-label test: a proposition and then a theorem reusing its label.
  const Thm := Env("thm", "Theorem", "**")
  const Another := "Another Lagrange Theorem"
  const PropMarker := "{{prop}}{prop:lagrange}[Lagrange Theorem]"
  const ThmRest := Lagrange + "}[" + Another + "]"
  const ThmMarker := "{{" + "thm}}" + "{" + ThmRest
  const PropDone := "<a name=\"prop:lagrange\"></a>\n" + "**Proposition 1.2.1 (Lagrange Theorem).**"
  const ThmDone := "<a name=\"prop:lagrange\"></a>\n" + "**Theorem 1.2.1 (Another Lagrange Theorem).**"

  lemma AnotherIsPlain()
    ensures ']' !in Another && '\n' !in Another
  {
  }

  lemma ThmSource()
    ensures Source(Thm.key, Decl(Some(Lagrange), Some(Another))) == ThmMarker
  {
    assert Opener(Thm.key) == "{{" + "thm}}";
    assert "}" + "[" == "}[";
    assert "{" + Lagrange + "}" + ("[" + Another + "]") == "{" + ThmRest;
  }

  lemma ThmName()
    ensures NumberedName(Thm, SecNum, 1) == "Theorem 1.2.1"
  {
    assert DecimalString(1) == "1";
  }

  lemma ThmHeader()
    ensures Anchor(Some(Lagrange)) + Header(Thm, SecNum, 1, Some(Another)) == ThmDone
  {
    ThmName();
    LagrangeAnchor();
    var h := "**Theorem 1.2.1 (Another Lagrange Theorem).**";
    assert "**" + "Theorem 1.2.1" == "**Theorem 1.2.1";
    assert "**Theorem 1.2.1" + " (" == "**Theorem 1.2.1 (";
    assert "**Theorem 1.2.1 (" + Another == "**Theorem 1.2.1 (Another Lagrange Theorem";
    assert "**Theorem 1.2.1 (Another Lagrange Theorem" + ")." == "**Theorem 1.2.1 (Another Lagrange Theorem).";
    assert "**Theorem 1.2.1 (Another Lagrange Theorem)." + "**" == h;
    assert Header(Thm, SecNum, 1, Some(Another)) == h;
  }

  /** No opener of `key` starts at `j` when the first three characters there rule it out. */
  lemma NotOpenerAt(s: string, j: nat, key: string)
    requires key != []
    requires j + 2 < |s| ==> s[j] != '{' || s[j + 1] != '{' || s[j + 2] != key[0]
    ensures !OpenerAt(s, j, key)
  {
    var o := Opener(key);
    if j + |o| <= |s| {
      var w := s[j..j + |o|];
      assert o[0] == '{' && o[1] == '{' && o[2] == key[0];
      assert w[0] == s[j] && w[1] == s[j + 1] && w[2] == s[j + 2];
    }
  }

  /** After any text `pre`, a space and the theorem marker hold no `{{prop}}`. */
  lemma NoPropOpenerAfter(pre: string)
    ensures forall j :: |pre| <= j ==> !OpenerAt(pre + (" " + ThmMarker), j, Prop.key)
  {
    var s := pre + (" " + ThmMarker);
    assert '{' !in "thm}}" && '{' !in ThmRest;
    forall j | |pre| <= j
      ensures !OpenerAt(s, j, Prop.key)
    {
      var m := j - |pre|;
      if j + 2 < |s| {
        if m == 0 {
          assert s[j] == ' ';
        } else if m == 1 {
          assert s[j + 2] == 't';
        } else if m == 2 {
          assert s[j + 1] == 't';
        } else if m < 8 {
          assert s[j] == "thm}}"[m - 3];
        } else if m == 8 {
          assert s[j + 1] == 'p';
        } else {
          assert s[j] == ThmRest[m - 9];
        }
      }
      NotOpenerAt(s, j, Prop.key);
    }
  }

  /** The proposition pass numbers its marker and passes the theorem marker through. */
  lemma DoubleLabelFirstPass(path: string)
    ensures ReplaceEnvs(PropMarker + " " + ThmMarker, SecNum, path, Prop, map[])
      == EnvState(PropDone + " " + ThmMarker, 1, Declared(path, Some(LagrangeTitle)), [])
  {
    NoPropOpenerAfter(PropMarker);
    PropMarkerThen(" " + ThmMarker, path);
    assert PropMarker + (" " + ThmMarker) == PropMarker + " " + ThmMarker;
    assert PropDone + (" " + ThmMarker) == PropDone + " " + ThmMarker;
  }

  /** The theorem pass restarts at 1 and only warns about the label the proposition took. */
  lemma DoubleLabelSecondPass(path: string)
    ensures ReplaceEnvs(PropDone + " " + ThmMarker, SecNum, path, Thm, Declared(path, Some(LagrangeTitle)))
      == EnvState(PropDone + " " + ThmDone, 1, Declared(path, Some(LagrangeTitle)),
                  [DuplicateLabel("Theorem 1.2.1", Lagrange)])
  {
    var d := Decl(Some(Lagrange), Some(Another));
    var refs := Declared(path, Some(LagrangeTitle));
    LagrangeIsPlain();
    AnotherIsPlain();
    ThmSource();
    var pre := PropDone + " ";
    var s := pre + Source(Thm.key, d) + "";
    assert '{' !in pre;
    forall j | 0 <= j < |pre|
      ensures !OpenerAt(s, j, Thm.key)
    {
      assert s[j] == pre[j];
      NotOpenerAt(s, j, Thm.key);
    }
    forall j | |pre| + |Source(Thm.key, d)| <= j
      ensures !OpenerAt(s, j, Thm.key)
    {
      NotOpenerAt(s, j, Thm.key);
    }
    DeclarationInText(pre, "", SecNum, path, Thm, refs, d);
    DeclarationAlone(SecNum, path, Thm, refs, d);
    ThmName();
    ThmHeader();
    assert s == PropDone + " " + ThmMarker;
    assert pre + ThmDone + "" == PropDone + " " + ThmDone;
  }

  /**
   * `{{prop}}{prop:lagrange}[Lagrange Theorem] {{thm}}{prop:lagrange}[Another Lagrange Theorem]`,
   * numbered for propositions and then for theorems: both markers are numbered 1
   * and both get the anchor, but the registry keeps the proposition's entry only,
   * and the theorem pass warns about the reused label.
   */
  lemma DoubleLabel(path: string)
    ensures var r1 := ReplaceEnvs(PropMarker + " " + ThmMarker, SecNum, path, Prop, map[]);
      var r2 := ReplaceEnvs(r1.out, SecNum, path, Thm, r1.refs);
      r2.out == PropDone + " " + ThmDone
      && |r2.refs| == 1 && r2.refs == Declared(path, Some(LagrangeTitle))
      && r2.warnings == [DuplicateLabel("Theorem 1.2.1", Lagrange)]
  {
    DoubleLabelFirstPass(path);
    DoubleLabelSecondPass(path);
  }

  /** A path with no separator is one component. */
  lemma SegmentsOfName(x: string)
    requires Paths.Plain(x)
    ensures Paths.Segments(x) == [x]
  {
  }

  lemma JoinCons(x: string, rest: seq<string>)
    requires rest != []
    ensures Paths.Join([x] + rest) == x + "/" + Paths.Join(rest)
  {
    assert ([x] + rest)[1..] == rest;
  }

  lemma SegmentsOfPair(dir: string, file: string)
    requires Paths.Plain(dir) && Paths.Plain(file)
    ensures Paths.Segments(dir + "/" + file) == [dir, file]
  {
    Paths.SegmentsCons(dir, file);
    SegmentsOfName(file);
  }

  lemma SegmentsOfTriple(top: string, dir: string, file: string)
    requires Paths.Plain(top) && Paths.Plain(dir) && Paths.Plain(file)
    ensures Paths.Segments(top + "/" + dir + "/" + file) == [top, dir, file]
  {
    assert top + "/" + dir + "/" + file == top + "/" + (dir + "/" + file);
    SegmentsOfPair(dir, file);
    Paths.SegmentsCons(top, dir + "/" + file);
  }

  /** `top/mid//sub/file` has four components: the doubled separator adds none. */
  lemma SegmentsOfDoubled(top: string, mid: string, sub: string, file: string)
    requires Paths.Plain(top) && Paths.Plain(mid) && Paths.Plain(sub) && Paths.Plain(file)
    ensures Paths.Segments(top + "/" + mid + "//" + sub + "/" + file) == [top, mid, sub, file]
  {
    assert top + "/" + mid + "//" + sub + "/" + file == top + "/" + (mid + "/" + ("/" + (sub + "/" + file)));
    SegmentsOfPair(sub, file);
    Paths.SegmentsSlash(sub + "/" + file);
    Paths.SegmentsCons(mid, "/" + (sub + "/" + file));
    Paths.SegmentsCons(top, mid + "/" + ("/" + (sub + "/" + file)));
  }

  /**
   * From `dir/file` to `tdir/tfile` in another folder: one level up, then down
   * (the shape of `crypto/bls_signatures.md` to `math/groups.md`).
   */
  lemma RelPathOneUp(dir: string, file: string, tdir: string, tfile: string)
    requires Paths.Plain(dir) && Paths.Plain(file) && Paths.Plain(tdir) && Paths.Plain(tfile) && dir != tdir
    ensures Paths.ComputeRelPath(dir + "/" + file, tdir + "/" + tfile) == "../" + tdir + "/" + tfile
  {
    SegmentsOfPair(dir, file);
    SegmentsOfPair(tdir, tfile);
    Paths.RelPathOf(dir + "/" + file, tdir + "/" + tfile, [dir, file], [tdir, tfile]);
    RelativeOneUp(dir, file, tdir, tfile);
  }

  lemma RelativeOneUp(dir: string, file: string, tdir: string, tfile: string)
    requires dir != tdir
    ensures Paths.Join(Paths.Relative([tdir, tfile], Paths.Parent([dir, file]))) == "../" + tdir + "/" + tfile
  {
    assert Paths.Parent([dir, file]) == [dir];
    assert Paths.CommonPrefix([tdir, tfile], [dir]) == 0;
    assert Paths.Relative([tdir, tfile], [dir]) == [".."] + [tdir, tfile];
    JoinCons("..", [tdir, tfile]);
  }

  /**
   * From `top/mid//sub/file` to `top/tdir/tfile`: the shared `top` is kept,
   * the doubled separator adds no level, so two levels up, then down (the
   * shape of `math/crypto//signatures/bls_signatures.md` to `math/algebra/groups.md`).
   */
  lemma RelPathTwoUp(top: string, mid: string, sub: string, file: string, tdir: string, tfile: string)
    requires Paths.Plain(top) && Paths.Plain(mid) && Paths.Plain(sub) && Paths.Plain(file)
    requires Paths.Plain(tdir) && Paths.Plain(tfile) && mid != tdir
    ensures Paths.ComputeRelPath(top + "/" + mid + "//" + sub + "/" + file, top + "/" + tdir + "/" + tfile)
      == "../../" + tdir + "/" + tfile
  {
    SegmentsOfDoubled(top, mid, sub, file);
    SegmentsOfTriple(top, tdir, tfile);
    assert [top, mid, sub, file] != [top, tdir, tfile];
    Paths.RelPathOf(top + "/" + mid + "//" + sub + "/" + file, top + "/" + tdir + "/" + tfile,
                    [top, mid, sub, file], [top, tdir, tfile]);
    assert Paths.Parent([top, mid, sub, file]) == [top, mid, sub];
    RelativeTwoUp(top, mid, sub, tdir, tfile);
  }

  lemma RelativeTwoUp(top: string, mid: string, sub: string, tdir: string, tfile: string)
    requires mid != tdir
    ensures Paths.Join(Paths.Relative([top, tdir, tfile], [top, mid, sub])) == "../../" + tdir + "/" + tfile
  {
    assert Paths.CommonPrefix([top, tdir, tfile], [top, mid, sub]) == 1;
    assert Paths.Relative([top, tdir, tfile], [top, mid, sub]) == [".."] + ([".."] + [tdir, tfile]);
    JoinCons("..", [tdir, tfile]);
    JoinCons("..", [".."] + [tdir, tfile]);
  }

  lemma AcrossFoldersPaths()
    ensures "crypto" + "/" + "bls_signatures.md" == "crypto/bls_signatures.md"
    ensures "math" + "/" + "groups.md" == "math/groups.md"
    ensures "../" + "math" + "/" + "groups.md" == "../math/groups.md"
  {
    assert "crypto" + "/" == "crypto/";
    assert "crypto/" + "bls_signatures.md" == "crypto/bls_signatures.md";
    assert "math" + "/" == "math/";
    assert "math/" + "groups.md" == "math/groups.md";
    assert "../" + "math" == "../math";
    assert "../math" + "/" == "../math/";
    assert "../math/" + "groups.md" == "../math/groups.md";
  }

  lemma CommonPrefixChapter()
    ensures "math" + "/" + "crypto" + "//" + "signatures" + "/" + "bls_signatures.md"
      == "math/crypto//signatures/bls_signatures.md"
  {
    assert "math" + "/" == "math/";
    assert "math/" + "crypto" == "math/crypto";
    assert "math/crypto" + "//" == "math/crypto//";
    assert "math/crypto//" + "signatures" == "math/crypto//signatures";
    assert "math/crypto//signatures" + "/" == "math/crypto//signatures/";
    assert "math/crypto//signatures/" + "bls_signatures.md" == "math/crypto//signatures/bls_signatures.md";
  }

  lemma CommonPrefixTarget()
    ensures "math" + "/" + "algebra" + "/" + "groups.md" == "math/algebra/groups.md"
  {
    assert "math" + "/" == "math/";
    assert "math/" + "algebra" == "math/algebra";
    assert "math/algebra" + "/" == "math/algebra/";
    assert "math/algebra/" + "groups.md" == "math/algebra/groups.md";
  }

  lemma CommonPrefixLinkPath()
    ensures "../../" + "algebra" + "/" + "groups.md" == "../../algebra/groups.md"
  {
    assert "../../" + "algebra" == "../../algebra";
    assert "../../algebra" + "/" == "../../algebra/";
    assert "../../algebra/" + "groups.md" == "../../algebra/groups.md";
  }


  /** From `crypto/bls_signatures.md` to `math/groups.md`. */
  lemma RelPathAcrossFolders()
    ensures Paths.ComputeRelPath("crypto/bls_signatures.md", "math/groups.md") == "../math/groups.md"
  {
    RelPathOneUp("crypto", "bls_signatures.md", "math", "groups.md");
    AcrossFoldersPaths();
  }

  /** From `math/crypto//signatures/bls_signatures.md` to `math/algebra/groups.md`. */
  lemma RelPathWithCommonPrefix()
    ensures Paths.ComputeRelPath("math/crypto//signatures/bls_signatures.md", "math/algebra/groups.md")
      == "../../algebra/groups.md"
  {
    RelPathTwoUp("math", "crypto", "signatures", "bls_signatures.md", "algebra", "groups.md");
    CommonPrefixChapter();
    CommonPrefixTarget();
    CommonPrefixLinkPath();
  }

  /** The registry after declaring `prop:lagrange`, titled or not, in the file `path`. */
  function Declared(path: string, title: Option<string>): Registry
  {
    map[Lagrange := LabelInfo("Proposition 1.2.1", path, title)]
  }

  lemma RefMarkers()
    ensures "{{" + Refs.Keyword(Refs.NumRef) + " " + Lagrange + "}}" == "{{ref: prop:lagrange}}"
    ensures "{{" + Refs.Keyword(Refs.TitleRef) + " " + Lagrange + "}}" == "{{tref: prop:lagrange}}"
    ensures IsWhitespace(' ')
  {
    assert "{{" + "ref:" == "{{ref:";
    assert "{{ref:" + " " == "{{ref: ";
    assert "{{ref: " + Lagrange == "{{ref: prop:lagrange";
    assert "{{ref: prop:lagrange" + "}}" == "{{ref: prop:lagrange}}";
    assert "{{" + "tref:" == "{{tref:";
    assert "{{tref:" + " " == "{{tref: ";
    assert "{{tref: " + Lagrange == "{{tref: prop:lagrange";
    assert "{{tref: prop:lagrange" + "}}" == "{{tref: prop:lagrange}}";
  }

  lemma SameFileLink()
    ensures "[" + "Proposition 1.2.1" + "](" + "" + "#" + Lagrange + ")"
      == "[Proposition 1.2.1](#prop:lagrange)"
  {
    assert "[" + "Proposition 1.2.1" == "[Proposition 1.2.1";
    assert "[Proposition 1.2.1" + "](" + "" == "[Proposition 1.2.1](";
    assert "[Proposition 1.2.1](" + "#" == "[Proposition 1.2.1](#";
    assert "[Proposition 1.2.1](#" + Lagrange == "[Proposition 1.2.1](#prop:lagrange";
    assert "[Proposition 1.2.1](#prop:lagrange" + ")" == "[Proposition 1.2.1](#prop:lagrange)";
  }

  lemma AcrossFoldersLink()
    ensures "[" + "Proposition 1.2.1" + "](" + "../math/groups.md" + "#" + Lagrange + ")"
      == "[Proposition 1.2.1](../math/groups.md#prop:lagrange)"
  {
    assert "[" + "Proposition 1.2.1" == "[Proposition 1.2.1";
    assert "[Proposition 1.2.1" + "](" == "[Proposition 1.2.1](";
    assert "[Proposition 1.2.1](" + "../math/groups.md" == "[Proposition 1.2.1](../math/groups.md";
    assert "[Proposition 1.2.1](../math/groups.md" + "#" == "[Proposition 1.2.1](../math/groups.md#";
    assert "[Proposition 1.2.1](../math/groups.md#" + Lagrange == "[Proposition 1.2.1](../math/groups.md#prop:lagrange";
    assert "[Proposition 1.2.1](../math/groups.md#prop:lagrange" + ")" == "[Proposition 1.2.1](../math/groups.md#prop:lagrange)";
  }

  lemma NumberedCommonPrefixLink()
    ensures "[" + "Proposition 1.2.1" + "](" + "../../algebra/groups.md" + "#" + Lagrange + ")"
      == "[Proposition 1.2.1](../../algebra/groups.md#prop:lagrange)"
  {
    assert "[" + "Proposition 1.2.1" == "[Proposition 1.2.1";
    assert "[Proposition 1.2.1" + "](" == "[Proposition 1.2.1](";
    assert "[Proposition 1.2.1](" + "../../algebra/groups.md" == "[Proposition 1.2.1](../../algebra/groups.md";
    assert "[Proposition 1.2.1](../../algebra/groups.md" + "#" == "[Proposition 1.2.1](../../algebra/groups.md#";
    assert "[Proposition 1.2.1](../../algebra/groups.md#" + Lagrange == "[Proposition 1.2.1](../../algebra/groups.md#prop:lagrange";
    assert "[Proposition 1.2.1](../../algebra/groups.md#prop:lagrange" + ")" == "[Proposition 1.2.1](../../algebra/groups.md#prop:lagrange)";
  }

  lemma TitledCommonPrefixLink()
    ensures "[" + LagrangeTitle + "](" + "../../algebra/groups.md" + "#" + Lagrange + ")"
      == "[Lagrange Theorem](../../algebra/groups.md#prop:lagrange)"
  {
    assert "[" + LagrangeTitle == "[Lagrange Theorem";
    assert "[Lagrange Theorem" + "](" == "[Lagrange Theorem](";
    assert "[Lagrange Theorem](" + "../../algebra/groups.md" == "[Lagrange Theorem](../../algebra/groups.md";
    assert "[Lagrange Theorem](../../algebra/groups.md" + "#" == "[Lagrange Theorem](../../algebra/groups.md#";
    assert "[Lagrange Theorem](../../algebra/groups.md#" + Lagrange == "[Lagrange Theorem](../../algebra/groups.md#prop:lagrange";
    assert "[Lagrange Theorem](../../algebra/groups.md#prop:lagrange" + ")" == "[Lagrange Theorem](../../algebra/groups.md#prop:lagrange)";
  }


  /** `{{ref: prop:lagrange}}` alone, in the file that declares the label: an anchor-only link. */
  lemma SameFileMarker()
    ensures Refs.FindAndReplaceRefs("{{ref: prop:lagrange}}", "crypto/groups.md",
                                    Declared("crypto/groups.md", Some(LagrangeTitle)))
      == Refs.Resolved("[Proposition 1.2.1](#prop:lagrange)", [])
  {
    LagrangeIsPlain();
    RefMarkers();
    SameFileLink();
    Refs.ResolveMarker(Refs.NumRef, " ", Lagrange, "crypto/groups.md", Declared("crypto/groups.md", Some(LagrangeTitle)));
    Paths.SameFileIsEmpty("crypto/groups.md", "crypto/groups.md");
  }

  // The same-file test: a declaration followed by a reference to it.
  const RefTail := "ref: prop:lagrange}}"
  const SameFileRef := " {{" + RefTail

  /** After any text `pre`, the reference marker holds no `{{prop}}`. */
  lemma NoPropOpenerInRef(pre: string)
    ensures forall j :: |pre| <= j ==> !OpenerAt(pre + SameFileRef, j, Prop.key)
  {
    var s := pre + SameFileRef;
    assert '{' !in RefTail;
    forall j | |pre| <= j
      ensures !OpenerAt(s, j, Prop.key)
    {
      var m := j - |pre|;
      if j + 2 < |s| {
        if m == 0 {
          assert s[j] == ' ';
        } else if m == 1 {
          assert s[j + 2] == 'r';
        } else if m == 2 {
          assert s[j + 1] == 'r';
        } else {
          assert s[j] == RefTail[m - 3];
        }
      }
      NotOpenerAt(s, j, Prop.key);
    }
  }

  /** The proposition pass over the titled declaration followed by text without `{{prop}}`. */
  lemma PropMarkerThen(post: string, path: string)
    requires forall j :: |PropMarker| <= j ==> !OpenerAt(PropMarker + post, j, Prop.key)
    ensures ReplaceEnvs(PropMarker + post, SecNum, path, Prop, map[])
      == EnvState(PropDone + post, 1, Declared(path, Some(LagrangeTitle)), [])
  {
    var d := Decl(Some(Lagrange), Some(LagrangeTitle));
    LagrangeIsPlain();
    PropSources();
    assert Source(Prop.key, d) == PropMarker;
    EmptyBefore(PropMarker, post);
    DeclarationInText("", post, SecNum, path, Prop, map[], d);
    PropositionWithLabelAndTitle(path);
    EmptyBefore(PropDone, post);
  }

  lemma EmptyBefore(a: string, b: string)
    ensures "" + a + b == a + b
  {
  }

  /** The proposition pass numbers the declaration and leaves the reference marker as it is. */
  lemma SameFileEnvPass(path: string)
    ensures ReplaceEnvs(PropMarker + SameFileRef, SecNum, path, Prop, map[])
      == EnvState(PropDone + SameFileRef, 1, Declared(path, Some(LagrangeTitle)), [])
  {
    NoPropOpenerInRef(PropMarker);
    PropMarkerThen(SameFileRef, path);
  }

  /** A reference marker after text without `{` is rewritten as it would be alone. */
  lemma MarkerAfterText(pre: string, chapPath: string, refs: Registry)
    requires '{' !in pre
    ensures var alone := Refs.FindAndReplaceRefs("{{ref: prop:lagrange}}", chapPath, refs);
      Refs.FindAndReplaceRefs(pre + "{{ref: prop:lagrange}}", chapPath, refs)
        == Refs.Resolved(pre + alone.text, alone.warnings)
  {
    var x := Refs.Ref(Refs.NumRef, " ", Lagrange);
    LagrangeIsPlain();
    RefMarkers();
    assert Refs.RefSource(x) == "{{ref: prop:lagrange}}";
    assert pre + Refs.RefSource(x) + "" == pre + "{{ref: prop:lagrange}}";
    assert Refs.NoDoubleBrace(pre + "{") by {
      forall j | 0 <= j < |pre + "{"|
        ensures !Refs.OpensAt(pre + "{", j)
      {
        if j < |pre| {
          assert (pre + "{")[j] == pre[j];
        }
      }
    }
    Refs.ReferenceInText(pre, "", Refs.NumRef, " ", Lagrange, chapPath, refs);
  }

  /** After text without `{`, the same-file reference still becomes the anchor-only link. */
  lemma SameFileMarkerAfter(pre: string)
    requires '{' !in pre
    ensures Refs.FindAndReplaceRefs(pre + "{{ref: prop:lagrange}}", "crypto/groups.md",
                                    Declared("crypto/groups.md", Some(LagrangeTitle)))
      == Refs.Resolved(pre + "[Proposition 1.2.1](#prop:lagrange)", [])
  {
    MarkerAfterText(pre, "crypto/groups.md", Declared("crypto/groups.md", Some(LagrangeTitle)));
    SameFileMarker();
  }

  /** The reference pass turns the marker after the numbered header into the anchor-only link. */
  lemma SameFileRefPass()
    ensures Refs.FindAndReplaceRefs(PropDone + SameFileRef, "crypto/groups.md",
                                    Declared("crypto/groups.md", Some(LagrangeTitle)))
      == Refs.Resolved(PropDone + " " + "[Proposition 1.2.1](#prop:lagrange)", [])
  {
    PropDoneBraceFree();
    SpaceThenMarker(PropDone);
    SameFileMarkerAfter(PropDone + " ");
  }

  lemma PropDoneBraceFree()
    ensures '{' !in PropDone + " "
  {
  }

  lemma SpaceThenMarker(a: string)
    ensures a + SameFileRef == a + " " + "{{ref: prop:lagrange}}"
  {
    assert SameFileRef == " " + "{{ref: prop:lagrange}}";
  }

  /**
   * `{{prop}}{prop:lagrange}[Lagrange Theorem] {{ref: prop:lagrange}}` in
   * `crypto/groups.md`, through the proposition pass and then the reference
   * pass: the declaration becomes its anchor and header, and the reference
   * becomes a link to that anchor in the same file.
   */
  lemma ReferenceInSameFile()
    ensures var r1 := ReplaceEnvs("{{prop}}{prop:lagrange}[Lagrange Theorem] {{ref: prop:lagrange}}",
                                  SecNum, "crypto/groups.md", Prop, map[]);
      var r2 := Refs.FindAndReplaceRefs(r1.out, "crypto/groups.md", r1.refs);
      r2.text == "<a name=\"prop:lagrange\"></a>\n" + "**Proposition 1.2.1 (Lagrange Theorem).** "
                 + "[Proposition 1.2.1](#prop:lagrange)"
      && r2.warnings == []
  {
    assert PropMarker + SameFileRef == "{{prop}}{prop:lagrange}[Lagrange Theorem] {{ref: prop:lagrange}}" by {
      assert PropMarker + " {{" == "{{prop}}{prop:lagrange}[Lagrange Theorem] {{";
    }
    SameFileEnvPass("crypto/groups.md");
    SameFileRefPass();
    assert "**Proposition 1.2.1 (Lagrange Theorem).**" + " " == "**Proposition 1.2.1 (Lagrange Theorem).** ";
    SpacedAfter("<a name=\"prop:lagrange\"></a>\n", "**Proposition 1.2.1 (Lagrange Theorem).**",
                "**Proposition 1.2.1 (Lagrange Theorem).** ", "[Proposition 1.2.1](#prop:lagrange)");
  }

  lemma SpacedAfter(a: string, b: string, bs: string, c: string)
    requires bs == b + " "
    ensures a + b + " " + c == a + bs + c
  {
  }

  /** `{{ref: prop:lagrange}}` from `crypto/bls_signatures.md` to a label of `math/groups.md`. */
  lemma ReferenceAcrossFolders()
    ensures Refs.FindAndReplaceRefs("{{ref: prop:lagrange}}", "crypto/bls_signatures.md",
                                    Declared("math/groups.md", Some(LagrangeTitle)))
      == Refs.Resolved("[Proposition 1.2.1](../math/groups.md#prop:lagrange)", [])
  {
    LagrangeIsPlain();
    RefMarkers();
    AcrossFoldersLink();
    Refs.ResolveMarker(Refs.NumRef, " ", Lagrange, "crypto/bls_signatures.md", Declared("math/groups.md", Some(LagrangeTitle)));
    RelPathAcrossFolders();
  }

  /**
   * From `math/crypto//signatures/bls_signatures.md`: `ref:` shows the numbered
   * name, `tref:` the title, or the numbered name when the label has no title.
   */
  lemma ReferenceWithCommonPrefix(kind: Refs.RefKind, title: Option<string>)
    requires title == None || title == Some(LagrangeTitle)
    ensures Refs.FindAndReplaceRefs("{{" + Refs.Keyword(kind) + " " + Lagrange + "}}",
                                    "math/crypto//signatures/bls_signatures.md",
                                    Declared("math/algebra/groups.md", title))
      == Refs.Resolved(
           if kind == Refs.TitleRef && title.Some?
           then "[Lagrange Theorem](../../algebra/groups.md#prop:lagrange)"
           else "[Proposition 1.2.1](../../algebra/groups.md#prop:lagrange)", [])
  {
    LagrangeIsPlain();
    RefMarkers();
    NumberedCommonPrefixLink();
    TitledCommonPrefixLink();
    Refs.ResolveMarker(kind, " ", Lagrange, "math/crypto//signatures/bls_signatures.md", Declared("math/algebra/groups.md", title));
    RelPathWithCommonPrefix();
  }

  /** A label nobody declared: the placeholder and one warning. */
  lemma ReferenceToUnknownLabel()
    ensures Refs.FindAndReplaceRefs("{{ref: prop:lagrange}}", "crypto/groups.md", map[])
      == Refs.Resolved("**[??]**", [Warning.UnknownReference(Lagrange)])
  {
    LagrangeIsPlain();
    RefMarkers();
    Refs.ResolveMarker(Refs.NumRef, " ", Lagrange, "crypto/groups.md", map[]);
  }
}
