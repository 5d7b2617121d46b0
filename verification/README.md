# mdbook-numthm, modelled in Dafny

mdbook-numthm is an mdBook preprocessor that numbers theorem-like
environments and resolves cross-references to them. An author writes
`{{thm}}{thm:main}[Main result]` and it becomes an anchor plus a header,
`**Theorem 1.2.1 (Main result).**`. A reference `{{ref: thm:main}}` becomes a
markdown link `[Theorem 1.2.1](../part/chapter.md#thm:main)`; with `tref:` the
link shows the title instead.

This project models the whole of `src/lib.rs` that does this work:

- `text.dfy` (`Text`): the small shared vocabulary: `Option`, the decimal
  rendering of a counter, and the Unicode white-space class that `\s` matches.
- `paths.dfy` (`Paths`): `compute_rel_path`. Paths are `/`-separated strings
  compared component by component, and `pathdiff::diff_paths` is written out
  as "one `..` per component of the base past the common prefix, then the rest
  of the target". The main result is that following the computed link from the
  referencing file's folder arrives at the defining file.
- `envs.dfy` (`Envs`): `find_and_replace_envs`.
  - The regular expression is replaced by an explicit left-to-right scanner. It
    is proved to lose nothing: the pieces spell out the input.
  - The replacement closure is specified as a fold, `Process` over `Step`.
  - The imperative `FindAndReplaceEnvs` is a loop with a counter and a registry
    held in local variables. It is proved to compute that fold.
  - Lemmas give the numbering (the k-th marker gets number k), the exact header
    and anchor text, and every registry rule: first registration wins, a
    duplicate only warns, an unlabelled marker touches nothing.
- `refs.dfy` (`Refs`): `find_and_replace_refs`. This is a pure function over a
  second scanner, which keeps the `\s*` and lazy `.*?` semantics of the source's
  pattern. Lemmas say what a marker becomes (a link or `**[??]**`), that text
  without markers is untouched, and that the warnings name the unknown labels,
  each as many times as it is referred to.
- `book.dfy` (`Book`): the configuration, the default environment table, and
  `run`.
  - `run` is an imperative method over an array of chapters and rewrites them
    in place: first every environment of every chapter, then every reference
    of every chapter.
  - It is proved against a functional specification.
  - Lemmas follow from that specification: drafts are untouched; a chapter's
    numbered text depends on that chapter alone; the registry's labels are
    exactly those some chapter declares, each recording the first declaring
    chapter's path; and a reference to a declared label becomes the link to it
    whichever of the two chapters comes first.
- `scenarios.dfy` (`Scenarios`): the behaviour fixed by the unit tests of
  `src/lib.rs`, stated as lemmas. These are the exact headers, anchors,
  registry entries and links, including the `//` path case.

Two behaviours of the code differ from an informal description of the system,
and the model follows the code:

- The counter `ctr` is a local of `find_and_replace_envs` (src/lib.rs:165), and
  `run` calls that function once per chapter and environment
  (src/lib.rs:131-134). Numbering therefore restarts at 1 for every environment
  kind in every chapter. It is not a running count over the whole book. The
  section-number prefix is off by default (src/lib.rs:104), and a chapter
  without a section number gets an empty prefix even when it is on
  (src/lib.rs:122-129), so two chapters can both hold a `Theorem 1`.
- `run` applies all environments to one chapter before moving to the next
  chapter (src/lib.rs:118-137). It does not apply one environment to the whole
  book before the next one.

Dafny names: `label` is a reserved word, so labels are called `lbl`. A chapter is
a draft exactly when it has no path, which is mdBook's `is_draft_chapter`.

## Model

| member | source | states |
|---|---|---|
| Text.DecimalString | src/lib.rs:191 | the counter is written as a non-empty string of decimal digits, a single digit exactly for values below ten |
| Text.DecimalStringValue | src/lib.rs:191 | reading the digits back gives the counter: the rendering is a lossless base-10 numeral |
| Text.DecimalStringInjective | src/lib.rs:191 | different counters are written differently |
| Paths.Segments | src/lib.rs:251-252 | a path's components are non-empty and contain no separator |
| Paths.CommonPrefix | src/lib.rs:259 | the length of the longest common prefix: the prefixes agree and the next components differ |
| Paths.Relative | src/lib.rs:259 | `diff_paths` on plain components: `..` for every base component past the common prefix, then the rest of the target |
| Paths.SameFileIsEmpty | src/lib.rs:252-254 | two paths with the same components give the empty link path |
| Paths.SegmentsCons | src/lib.rs:251-252 | a leading component is split off at the first separator |
| Paths.SegmentsSlash | src/lib.rs:251-252 | an empty component (a doubled separator) does not count |
| Paths.SegmentsOfJoin | src/lib.rs:257-260 | joining components with `/` and splitting again gives them back |
| Paths.WalkUps | src/lib.rs:259 | following `n` parent components removes the last `n` components |
| Paths.WalkNames | src/lib.rs:259 | following plain names appends them |
| Paths.RelativeRoundTrip | src/lib.rs:259 | following `Relative(target, base)` from `base` arrives at `target` |
| Paths.RelPathSegments | src/lib.rs:251-261 | the same file gives the empty link path; otherwise the link path's components are `diff_paths` of the target against the referencing file's folder |
| Paths.RelPathRoundTrip | src/lib.rs:251-261 | following `compute_rel_path(chap, target)` from the folder of `chap` arrives at `target` |
| Envs.FindClose | src/lib.rs:173 | the lazy `.*?` before a closing bracket: the first closing bracket with no line break before it, or none |
| Envs.Group | src/lib.rs:173 | an optional `{label}` or `[title]` group: the capture has no closing bracket or line break, and it is absent exactly when no such group follows |
| Envs.ParseDecl | src/lib.rs:171-176 | a marker is recognised exactly where `{{key}}` occurs, and it spans exactly its own source text |
| Envs.Tokenize | src/lib.rs:178 | the scan ends: at most one piece per remaining character, and no piece exactly when nothing remains |
| Envs.TokenizeRoundTrip | src/lib.rs:178 | the scan is lossless: the pieces spell out the input |
| Envs.Numbers | src/lib.rs:165-179 | the k-th piece, if a marker, gets one more than the counter's start plus the markers before it |
| Envs.NumberedNameDigits | src/lib.rs:191 | the numbered name is the kind's name, a space and the prefix, followed by digits that read back as the counter |
| Envs.NumberedNamesDistinct | src/lib.rs:191 | two counters give the same numbered name only when they are equal |
| Envs.AnchorLabel | src/lib.rs:197 | the anchor is empty exactly when there is no label, and otherwise holds the label right after `<a name="` |
| Envs.HeaderShape | src/lib.rs:201-209 | the header is the emphasis and the numbered name, then ` (title)` when there is a title, then `.` and the emphasis |
| Envs.StepOutput | src/lib.rs:179-210 | one closure call appends the marker rendered with the counter plus one, and bumps the counter only for a marker |
| Envs.ReplaceEnvs | src/lib.rs:158-213 | a call keeps every registry entry, and its keys are the old keys plus the labels the markers captured |
| Envs.FindAndReplaceEnvs | src/lib.rs:158-213 | the loop returns the text, registry and warnings of the fold `ReplaceEnvs` over the scanned pieces |
| Envs.ProcessOutput | src/lib.rs:178-211 | the output is the pieces' replacements in order, and the counter ends at the starting value plus the number of markers |
| Envs.NumberingByOccurrence | src/lib.rs:165-179 | within one call the k-th marker is numbered k, starting at 1, and the final counter is the number of markers |
| Envs.OutputIndependentOfRegistry | src/lib.rs:180-210 | the rewritten text does not depend on the registry, so a duplicate label is rendered like a new one |
| Envs.AnchorIffLabel | src/lib.rs:180-210 | the output starts with `<a name="` exactly when a label was captured, and is then that anchor followed by the header |
| Envs.StepRegistry | src/lib.rs:179-200 | one match: a new label adds exactly one entry `{name prefix ctr, path, title}`; a duplicate keeps the map and adds one warning; no label touches neither |
| Envs.RegistryGrows | src/lib.rs:184-196 | a call keeps every existing entry and adds exactly the captured labels |
| Envs.RegistryCount | src/lib.rs:184-196 | every labelled marker adds either one entry or one duplicate warning |
| Envs.RegistryFirstUse | src/lib.rs:184-196 | a new label is bound to the first marker that captured it, with that marker's number, the path and the title |
| Envs.RegistryAfterEnvs | src/lib.rs:158-213 | the registry after a call: old entries kept, keys = old keys + captured labels, each new label holds its first marker's entry, and the count balance |
| Envs.NoMarkerUnchanged | src/lib.rs:178-212 | text without `{{key}}` is returned unchanged, with the registry untouched and no warning |
| Envs.TokenizeDecl | src/lib.rs:173 | a lone marker whose label and title have no closing bracket or line break scans as exactly that marker |
| Envs.DeclarationAlone | src/lib.rs:179-210 | a lone marker becomes its anchor and header numbered 1, and registers the label or warns about the duplicate |
| Envs.ParseDeclAt | src/lib.rs:171-176 | a well-formed marker written at any position is recognised there with exactly its own label and title, and the match ends right after its text |
| Envs.CopyUpTo | src/lib.rs:178 | text between matches is copied verbatim and leaves counter, registry and warnings unchanged |
| Envs.TailCopy | src/lib.rs:178-212 | text after the last match is appended verbatim |
| Envs.DeclarationInText | src/lib.rs:178-212 | a marker between plain text is replaced in place: the text before and after it is kept, and the marker becomes what it becomes alone |
| Refs.SkipSpace | src/lib.rs:223 | the greedy `\s*`: every skipped character is white space and the next one is not |
| Refs.FindRefEnd | src/lib.rs:223 | the lazy `.*?\}\}`: the first `}}` with no line break before it, or none when every later `}}` follows a line break |
| Refs.MarkerKind | src/lib.rs:223 | `ref:` or `tref:` right after `{{`, and nothing where there is no `{{` |
| Refs.ParseRef | src/lib.rs:223 | a reference spans exactly its own text; its label does not start with white space, has no line break and no `}}` |
| Refs.ParseRefNone | src/lib.rs:223 | where `{{ref:` or `{{tref:` is not recognised, every later `}}` comes after a line break, so no other way of matching exists |
| Refs.RefTokenize | src/lib.rs:225 | the scan ends: at most one piece per remaining character, and no piece exactly when nothing remains |
| Refs.MarkerAt | src/lib.rs:223 | a well-formed marker written at any position is recognised there with its own kind, spacing and label, and the match ends right after its `}}` |
| Refs.RefTokenizeRoundTrip | src/lib.rs:225 | the scan is lossless: the pieces spell out the input |
| Refs.ResolveMarker | src/lib.rs:225-245 | a known label becomes `[text](relpath#label)`, where the text is the numbered name for `ref:` and the title or else the numbered name for `tref:`; an unknown label becomes exactly `**[??]**` with one warning |
| Refs.LinkText | src/lib.rs:227-236 | the numbered name for `ref:` or for a label without a title; the title for `tref:` when there is one |
| Refs.ReplacementShape | src/lib.rs:225-245 | a reference becomes exactly `**[??]**` when its label is unknown, and otherwise a `[...]` link ending in `#label)` |
| Refs.ReferenceInText | src/lib.rs:225-247 | a marker between stretches of text without `{{` is replaced in place: the text around it is kept and the marker becomes what it becomes alone |
| Refs.ReferenceInTextResolves | src/lib.rs:225-245 | such a marker becomes the link to a registered label, or `**[??]**` with one warning for an unknown one |
| Refs.TokenizeMarker | src/lib.rs:223 | a well-formed marker on its own scans as exactly one reference |
| Refs.NoMarkersUnchanged | src/lib.rs:225-247 | text without `{{` is returned unchanged, with no warning |
| Refs.PlainTextUnchanged | src/lib.rs:217-248 | text without `{{` comes back unchanged, with no warning |
| Refs.UnknownWarnings | src/lib.rs:217-248 | for a whole call: every warning names a missing label, every reference to a missing label gets a warning naming it, there are as many warnings as such references, and each missing label is named once per reference to it |
| Refs.WarningsAreUnknownRefs | src/lib.rs:242-245 | over the scanned pieces: only references to missing labels warn, and the number of warnings is the number of such references |
| Refs.UnknownRefsAreWarned | src/lib.rs:242-245 | over the scanned pieces: every reference to a missing label raises a warning naming that label |
| Refs.WarningsPerLabel | src/lib.rs:242-245 | over the scanned pieces: a missing label is named in exactly as many warnings as there are references to it |
| Book.DefaultConfig | src/lib.rs:70-106 | five environments with distinct lower-case keys, non-empty emphasis not starting with `<`, no prefix |
| Book.OpenerIsNotMarker | src/lib.rs:170-173 | where `{{ref:` or `{{tref:` starts, no opener of a lower-case key starts, so the environment passes leave reference markers alone |
| Book.Prefix | src/lib.rs:122-129 | the prefix is the section number when `with_prefix` is set and a number exists, and empty otherwise |
| Book.ApplyEnvsToChapter | src/lib.rs:131-134 | the loop over environments computes `ApplyEnvs`, each call working on the previous output and registry |
| Book.NumberChapters | src/lib.rs:118-137 | the first pass rewrites the array in place into `NumberBook`'s chapters, and returns its registry and warnings |
| Book.ResolveChapters | src/lib.rs:139-147 | the second pass rewrites the array in place into the resolved chapters, and returns the warnings |
| Book.Run | src/lib.rs:114-150 | `run` leaves the book and the warnings as `RunSpec` says: all numbering first, then all resolution |
| Book.ApplyEnvsText | src/lib.rs:131-134 | a chapter's numbered text depends neither on the registry nor on the path, so numbering restarts in every chapter |
| Book.ApplyEnvsKeeps | src/lib.rs:131-134 | applying the environments keeps every registry entry and every earlier warning |
| Book.NumberStepShape | src/lib.rs:119-135 | the first pass on one chapter appends `Numbered` of that chapter and keeps the registry's entries |
| Book.NumberFromShape | src/lib.rs:118-137 | the first pass turns each chapter into `Numbered` of it, whatever came before, and never drops or changes a registry entry |
| Book.ResolveFromShape | src/lib.rs:139-147 | the second pass resolves every chapter against the same registry and changes nothing else |
| Book.RunOutput | src/lib.rs:114-150 | drafts unchanged; path and number kept; a non-draft chapter's text is its numbered text with references resolved against the whole book's registry |
| Book.NumberFromSplit | src/lib.rs:118-137 | numbering a book in two parts is numbering the first part, then the second |
| Book.NumberBookShape | src/lib.rs:118-137 | the first pass yields one numbered chapter per chapter, in order |
| Book.ApplyEnvsKeys | src/lib.rs:131-134 | applying the environments to a chapter adds exactly the labels its markers capture, each new entry with the chapter's path |
| Book.NumberStepKeys | src/lib.rs:119-135 | the first pass on one chapter adds exactly the chapter's labels, each new entry with its path; a draft adds none |
| Book.NumberFromKeys | src/lib.rs:118-137 | the first pass adds exactly the labels the chapters declare, and a label's entry records the first declaring chapter's path |
| Book.RegistryOfBook | src/lib.rs:114-137 | the final registry's labels are exactly those declared in some chapter, each with the path of the first chapter declaring it |
| Book.RegistryOfPrefix | src/lib.rs:114-147 | an entry registered by the first j chapters is in the final registry unchanged, so a reference may point to a later chapter |
| Book.ReferenceToDeclaredLabel | src/lib.rs:114-150 | after `run`, a lone reference in chapter k's numbered text to a label declared in chapter j, before or after k, is the link to the registered entry, with the text around it kept |
| Book.ReferenceToUndeclaredLabel | src/lib.rs:114-150 | after `run`, a reference to a label no chapter declares is `**[??]**`, with the text around it kept |
| Book.ReferenceInSourceToDeclaredLabel | src/lib.rs:114-150 | for a reference written in chapter k's own text (no other `{{`, lower-case keys): after `run` it is the link to the entry of a label declared in any chapter j |
| Book.ReferenceInSourceToUndeclaredLabel | src/lib.rs:114-150 | for a reference written in chapter k's own text to a label no chapter declares: after `run` it is `**[??]**`, the text around it kept |
| Book.MarkerSurvivesEnvs | src/lib.rs:131-134 | text whose only `{{` opens a reference marker comes through every environment pass of lower-case keys unchanged |
| Book.DeclareThenReference | src/lib.rs:158-248 | a declared label referenced from any file gives a link whose text is the numbered name (or the title for `tref:`) and whose target is the declaring file's anchor |
| Scenarios.PropositionWithoutLabel | src/lib.rs:284-292 | `{{prop}}` with prefix `1.2.` becomes `**Proposition 1.2.1.**`, registering nothing |
| Scenarios.PropositionWithLabel | src/lib.rs:294-313 | the anchor line, then the header, and the entry `Proposition 1.2.1` for `prop:lagrange` |
| Scenarios.PropositionWithTitle | src/lib.rs:315-323 | the title goes in parentheses before the final period, registering nothing |
| Scenarios.PropositionWithLabelAndTitle | src/lib.rs:325-335 | anchor plus titled header, and an entry that keeps the title |
| Scenarios.RelPathOneUp | src/lib.rs:250-261 | from `dir/file` to `tdir/tfile` in another folder the link path is `../tdir/tfile` |
| Scenarios.RelPathTwoUp | src/lib.rs:250-261 | from `top/mid//sub/file` to `top/tdir/tfile` the link path is `../../tdir/tfile`; the doubled `/` adds no level |
| Scenarios.RelPathAcrossFolders | src/lib.rs:370-382 | `crypto/bls_signatures.md` to `math/groups.md` gives `../math/groups.md` |
| Scenarios.RelPathWithCommonPrefix | src/lib.rs:384-396 | `math/crypto//signatures/bls_signatures.md` to `math/algebra/groups.md` gives `../../algebra/groups.md` |
| Scenarios.SameFileMarker | src/lib.rs:361 | `{{ref: prop:lagrange}}` alone in the declaring file becomes `[Proposition 1.2.1](#prop:lagrange)` |
| Scenarios.SameFileEnvPass | src/lib.rs:360 | the `prop` pass numbers the declaration, registers `prop:lagrange` and leaves the reference marker as it is |
| Scenarios.SameFileRefPass | src/lib.rs:361 | the reference pass turns the marker after the header into `[Proposition 1.2.1](#prop:lagrange)` |
| Scenarios.ReferenceInSameFile | src/lib.rs:355-368 | both passes over `{{prop}}{prop:lagrange}[Lagrange Theorem] {{ref: prop:lagrange}}` give the anchor, the titled header, a space and `[Proposition 1.2.1](#prop:lagrange)`, with no warning |
| Scenarios.ReferenceAcrossFolders | src/lib.rs:370-382 | `[Proposition 1.2.1](../math/groups.md#prop:lagrange)` |
| Scenarios.ReferenceWithCommonPrefix | src/lib.rs:384-424 | `ref:` shows `Proposition 1.2.1`, `tref:` shows `Lagrange Theorem`, or the numbered name without a title |
| Scenarios.ReferenceToUnknownLabel | src/lib.rs:242-245 | an unknown label gives `**[??]**` and one warning naming it |
| Scenarios.DoubleLabelFirstPass | src/lib.rs:337-343 | the `prop` pass replaces the proposition, leaves the `{{thm}}` marker as it is, and registers `prop:lagrange` |
| Scenarios.DoubleLabelSecondPass | src/lib.rs:344-350 | the `thm` pass numbers the theorem 1.2.1, keeps the registry, and warns about the reused label |
| Scenarios.DoubleLabel | src/lib.rs:337-353 | both passes give the expected text, the theorem restarting at 1, and the registry keeps one entry |

## Left out

- Configuration parsing in `NumThmPreprocessor::new` (src/lib.rs:45-67) is not modelled. It reads `toml::Value`s from mdBook's context; a `Config` value stands in for its result. Its slice `&env_params[0..3]` panics on a custom environment given fewer than three strings; that panic is not modelled.
- The mdBook `Book`/`BookItem` types, `for_each_mut` and the `Preprocessor` trait are not modelled (src/lib.rs:109-113). The book is the sequence of its chapters in the order `for_each_mut` visits them, which puts a chapter's sub-chapters before the chapter itself; that order decides which of two chapters declaring the same label is registered. Separators and part titles carry no text the preprocessor touches.
- `warn!` logging (src/lib.rs:186, src/lib.rs:243) is modelled as a returned list of `Warning` values in emission order; the log text itself is not.
- The `regex` crate is not modelled in general. The two patterns are replaced by scanners with the same captures. An environment key is taken literally, whereas the source splices it into the pattern unescaped (src/lib.rs:172), so a key holding regex metacharacters would behave differently there. The default keys are lower-case words (`Book.DefaultConfig`), for which the two agree.
- `pathdiff::diff_paths` is modelled only for relative paths of plain components. Absolute paths, `.` and `..` components, and its `None` case (the `unwrap` at src/lib.rs:259) are not modelled. Rust's `Path` ignores `.` components inside a path; the model does not.
- Envs.Replace, Envs.NumberingByOccurrence and Text.DecimalString: the counter `ctr` is an `i32` in the source (src/lib.rs:165, src/lib.rs:179), which overflows after 2^31 - 1 markers of one environment in one chapter (a panic in a debug build, wrap-around in a release build); the model's counter is an unbounded natural number, so that overflow is not modelled.
- mdBook's `SectionNumber` display is not modelled: a chapter's number is the already rendered string, such as `1.2.`.
- Paths.RelPathRoundTrip: requires the target to consist of plain components (no `.` or `..`), because following a `..` in the target could not return to it, and requires the two paths to differ: for the same file the link path is empty (src/lib.rs:252-254), which points at the page itself rather than at its folder.
