# Stylesheet bundle builder, modelled in Dafny

`bin/build-css-bundles.py` builds four minified stylesheet bundles from a
fixed manifest. For each bundle, in manifest order, it reads the listed
source stylesheets and stops the whole run at the first one that does not
exist. Otherwise it joins the texts with line breaks, normalises the result
and writes it, followed by one line break, under the bundle's output name.

Normalising is a fixed chain of five rewrites:

1. remove comments (`/*` up to the first `*/` after it, across lines);
2. remove `@import url(...);` statements and the whitespace after them;
3. collapse each whitespace run to one space;
4. drop whitespace around `{ } : ; ,`;
5. trim both ends.

The project has two modules.

- `CssText` (`normalize.dfy`) holds the normaliser. Each regular-expression
  substitution is a recursive scanner. Like `re.sub`, it tries the pattern
  at the current position. On a match it emits the replacement (nothing,
  one space, or the punctuation character) and resumes after the match;
  otherwise it keeps one character and moves on. The lemmas state what each step removes, what it keeps,
  and the layout of the final text.
- `CssBundles` (`bundles.dfy`) holds the builder. The source directory and
  the output directory are maps from file name to text. `Build` is the
  builder's two nested loops. The outer loop updates the output map; the
  inner loop is `ReadSources`, which stops at a missing source.
  `Build` is proved equal to the recursive specification `Run`. `Run` takes
  the rendering of a bundle's texts as a parameter, and `Build` uses
  `BundleText`, so the ordering and failure properties of `Run` hold for
  any rendering. A missing source ends the run with
  `MissingSource(name)`.

Whitespace (`IsWs`) is the set of characters that Python's `\s` and
`str.strip()` accept on text. All steps share that one set.

## Model

| member | source | states |
|---|---|---|
| CssText.IsWs | bin/build-css-bundles.py:57-60 | the whitespace class shared by `\s` and `str.strip()`: Python's whitespace characters (its properties are stated by `WhitespaceClass`) |
| CssText.WhitespaceClass | bin/build-css-bundles.py:57-60 | space, tab, line feed, vertical tab, form feed and carriage return are whitespace, and no whitespace character is one of `{ } : ; ,` |
| CssText.StripComments | bin/build-css-bundles.py:51-52 | `strip_comments`: the result is no longer than the input; what it removes and keeps is stated by the lemmas below |
| CssText.FindClose | bin/build-css-bundles.py:52 | the lazy `.*?`: the result is the first closing marker at or after the start position, and `None` means no closing marker follows |
| CssText.StripCommentsKeepsUnclosed | bin/build-css-bundles.py:51-52 | a text where no opening marker has a closing marker after it comes through comment stripping unchanged (in particular a text with no `/*` at all) |
| CssText.StripCommentsKeepsUnterminated | bin/build-css-bundles.py:51-52 | an opening marker with no closing marker after it is kept verbatim, together with everything after it |
| CssText.StripCommentsRemovesComment | bin/build-css-bundles.py:51-52 | after a prefix without opening markers, a complete comment (opening marker through its first closing marker, any characters including line breaks in between) is removed and the prefix is kept |
| CssText.StripCommentsOfBlank | bin/build-css-bundles.py:51-52 | text made of whitespace and complete comments strips to whitespace only |
| CssText.StripCommentsOfComment | bin/build-css-bundles.py:51-52 | a text that is one complete comment strips to the empty text |
| CssText.StripCommentsSplices | bin/build-css-bundles.py:51-52 | removing one comment can splice a new one: `//*x*/*y*/` strips to `/*y*/` |
| CssText.StripCommentsNotIdempotent | bin/build-css-bundles.py:51-52 | stripping `//*x*/*y*/` twice gives a different text from stripping it once (the second pass removes the spliced comment) |
| CssText.MatchImport | bin/build-css-bundles.py:57 | the import pattern tried at the front of a text: a match never reaches past the end of the text (its exact shape is stated by the next two rows) |
| CssText.MatchImportSound | bin/build-css-bundles.py:57 | every match of the import pattern has the statement's shape: `@import`, non-empty whitespace, `url(`, a non-empty argument without `)`, `);`, and the maximal whitespace run after it |
| CssText.MatchImportComplete | bin/build-css-bundles.py:57 | every text that starts with a statement of that shape is matched, with exactly those part lengths |
| CssText.StripImports | bin/build-css-bundles.py:57 | the import-removing substitution: the result is no longer than the input; what it removes and keeps is stated by the lemmas below |
| CssText.StripImportsRemovesStatement | bin/build-css-bundles.py:57 | a statement at the front is removed with its trailing whitespace, and stripping goes on after it |
| CssText.StripImportsKeepsPlainText | bin/build-css-bundles.py:57 | text without `@` passes through import stripping unchanged |
| CssText.StripImportsKeepsRejected | bin/build-css-bundles.py:57 | a character where the pattern does not match is kept, and so is the `@`-free text after it |
| CssText.MatchImportRejectsEmptyArgument | bin/build-css-bundles.py:57 | `@import url();` (an empty argument) is not matched |
| CssText.MatchImportRejectsMissingGap | bin/build-css-bundles.py:57 | `@import` followed directly by a non-whitespace character (`@importurl(x);`) is not matched |
| CssText.CollapseWs | bin/build-css-bundles.py:58 | the result is single-spaced: every whitespace character is a plain space and no two are adjacent; it is no longer than the input, and it starts with a space exactly when the input starts with whitespace |
| CssText.CollapseWsKeepsText | bin/build-css-bundles.py:58 | collapsing keeps every non-whitespace character, in order |
| CssText.CollapseWsFixesSingleSpaced | bin/build-css-bundles.py:58 | collapsing leaves single-spaced text unchanged |
| CssText.CollapseWsConcat | bin/build-css-bundles.py:58 | no whitespace run crosses a boundary after a non-whitespace character: collapsing `a + t` is collapsing `a` followed by collapsing `t` |
| CssText.CollapseWsGap | bin/build-css-bundles.py:58 | a whitespace run at the front becomes exactly one space, and the rest is collapsed on its own |
| CssText.CollapseWsSplit | bin/build-css-bundles.py:58 | each whitespace run `w` between `a` (not ending in whitespace) and `b` (not starting with whitespace) becomes exactly one space in its place: `CollapseWs(a + w + b) == CollapseWs(a) + " " + CollapseWs(b)` |
| CssText.CollapseWsLast | bin/build-css-bundles.py:58 | a final non-whitespace character stays last |
| CssText.MatchPunct | bin/build-css-bundles.py:59 | in both directions: a punctuation match is a maximal whitespace run, one of `{ } : ; ,`, and the maximal whitespace run after it; and when there is no match, the first character after the leading whitespace run is not punctuation (or there is none) |
| CssText.PunctStep | bin/build-css-bundles.py:59 | the punctuation substitution: the result is no longer than the input; its layout is stated by the lemmas below |
| CssText.PunctStepFirst | bin/build-css-bundles.py:59 | the output starts with whitespace only where no match starts (and that whitespace is the input's first character), and with punctuation only where a match starts |
| CssText.MatchPunctText | bin/build-css-bundles.py:59 | a punctuation match replaces only whitespace: its only non-whitespace character is the punctuation it keeps |
| CssText.PunctStepTight | bin/build-css-bundles.py:59 | after the punctuation step no whitespace sits right before or right after `{ } : ; ,` |
| CssText.PunctStepKeepsSingleSpaced | bin/build-css-bundles.py:58-59 | the punctuation step keeps single-spaced text single-spaced |
| CssText.PunctStepKeepsText | bin/build-css-bundles.py:59 | the punctuation step keeps every non-whitespace character, in order |
| CssText.PunctStepFixesTight | bin/build-css-bundles.py:59 | the punctuation step leaves text with no whitespace beside punctuation unchanged |
| CssText.MatchPunctInPrefix | bin/build-css-bundles.py:59 | a match that starts in a text ending in a word character (neither whitespace nor punctuation) ends inside it, whatever follows |
| CssText.PunctStepConcat | bin/build-css-bundles.py:59 | no punctuation match crosses a boundary after a word character: tightening `a + t` is tightening `a` followed by tightening `t` |
| CssText.PunctStepKeepsSpace | bin/build-css-bundles.py:59 | a space between two word characters is kept in its place: `PunctStep(a + " " + b) == PunctStep(a) + " " + PunctStep(b)` |
| CssText.CollapseAndTightenKeepWordGap | bin/build-css-bundles.py:58-59 | a whitespace run between two word characters comes out of collapsing and tightening as exactly one space, so `.a  .b` keeps its descendant-selector space |
| CssText.Trim | bin/build-css-bundles.py:60 | the result neither starts nor ends with whitespace; it is the input with the leading whitespace run and trailing whitespace removed |
| CssText.TrimKeepsLayout | bin/build-css-bundles.py:60 | trimming single-spaced, tight text keeps it single-spaced and tight, with no line break |
| CssText.TrimKeepsText | bin/build-css-bundles.py:60 | trimming keeps every non-whitespace character, in order |
| CssText.Normalize | bin/build-css-bundles.py:55-60 | the result has no leading or trailing whitespace, only single spaces as whitespace, no whitespace beside punctuation and no line break, and is no longer than the input |
| CssText.NormalizeKeepsText | bin/build-css-bundles.py:55-60 | once comments and import statements are removed, normalising changes only whitespace: the non-whitespace characters are kept, in order |
| CssText.NormalizeOfBlank | bin/build-css-bundles.py:55-60 | text made only of whitespace and complete comments normalises to the empty text |
| CssBundles.Manifest | bin/build-css-bundles.py:10-48 | the four bundles with their output names and source lists, in declaration order |
| CssBundles.ManifestDistinct | bin/build-css-bundles.py:10-48 | the manifest (four bundles, sources in listed order) names each output file once |
| CssBundles.FirstMissing | bin/build-css-bundles.py:67-70 | the position of the first missing source: every source before it exists |
| CssBundles.Contents | bin/build-css-bundles.py:66-71 | the collected parts are the sources' texts, one per name, in listed order |
| CssBundles.ReadSources | bin/build-css-bundles.py:66-71 | the inner loop: with all sources present it returns their texts in order, otherwise it returns the first missing name |
| CssBundles.Join | bin/build-css-bundles.py:72 | `"\n".join`: the joined text is as long as the texts plus one separator between each two, and empty for no texts |
| CssBundles.OffStep | bin/build-css-bundles.py:72 | each text's offset in the joined text is the previous offset plus the previous text and one separator, so offsets strictly increase in listed order |
| CssBundles.JoinLayout | bin/build-css-bundles.py:72 | for any texts (line breaks included) each text sits unchanged at its offset, followed by a line break except the last, which ends the joined text |
| CssBundles.SplitJoin | bin/build-css-bundles.py:72 | a corollary for texts without line breaks: splitting the joined text at its line breaks gives the texts back |
| CssBundles.BundleText | bin/build-css-bundles.py:72-73 | the written text ends in a line break and has no other line break |
| CssBundles.Build | bin/build-css-bundles.py:63-73 | `main`: the result equals `Run` over the manifest with `BundleText`. It succeeds exactly when every source exists. On success every output file is written once with its bundle text and no other file is added. On failure it names the first missing source of the first incomplete bundle; earlier bundles are written and later outputs are left untouched |
| CssBundles.Run | bin/build-css-bundles.py:63-73 | the specification of `main` as a recursive run over the bundles; a run never removes a file from the output directory |
| CssBundles.FirstIncomplete | bin/build-css-bundles.py:65-70 | the position of the first bundle with a missing source: every bundle before it is complete |
| CssBundles.RunBuiltIffComplete | bin/build-css-bundles.py:65-73 | a run succeeds exactly when every bundle has all its sources |
| CssBundles.RunNamesFirstMissing | bin/build-css-bundles.py:67-70 | a failed run names the first missing source of the first incomplete bundle |
| CssBundles.RunStopsAtFirstIncomplete | bin/build-css-bundles.py:65-70 | a failed run leaves the output directory exactly as a run over the bundles before the failing one does |
| CssBundles.RunKeepsOthers | bin/build-css-bundles.py:65-73 | a file no bundle writes keeps its presence and its text |
| CssBundles.RunWritesAll | bin/build-css-bundles.py:65-73 | a successful run writes exactly the outputs of the bundles, each with the rendering of its sources in listed order, and adds no other file |
| CssBundles.RunFailureWritesDone | bin/build-css-bundles.py:65-70 | a failed run has written every bundle before the failing one, with its rendering |
| CssBundles.RunFailureKeepsRest | bin/build-css-bundles.py:65-70 | a failed run leaves the outputs of the failing bundle and of every later bundle as they were |
| CssBundles.RunMerges | bin/build-css-bundles.py:63-73 | the outcome does not depend on the output directory, and the directory afterwards is the old directory overwritten with what the run writes |
| CssBundles.RunIdempotent | bin/build-css-bundles.py:63-73 | running again with the same sources gives the same outcome and leaves the output directory unchanged |

## Left out

- Path resolution (`ROOT`, `__file__`, `parents[1]`), creating the output directory, UTF-8 decoding and encoding, and the real file reads and writes. The two directories are maps passed in and returned. The output map is updated by value, not in place.
- CssBundles.Build: the failure carries the missing source's file name, not the joined path shown in the `SystemExit` message. The process exit code is not modelled.
- A source path that exists but is a directory, and read or write errors such as permissions or a full disk. Each of these ends the run with an unhandled exception.
- The general regular-expression engine. Only the four patterns used here are modelled, each as its own scanner.
- Unicode beyond the `IsWs` set. No normalisation or case folding is involved.
- Idempotence of `normalize`, and the claim that its output holds no comments, are not stated because they do not hold. CssText.StripCommentsNotIdempotent shows the splice that defeats both. Comment-like text inside strings is also rewritten, as in the source.
- The worked examples, the punctuation example `a ,  b   {  color : red ;  }` and an import followed by `body{margin:0}`, are not stated as lemmas on their literal texts, because those proofs cost too much. The general lemmas state the facts they rely on. Collapsing and tightening work piecewise (`CollapseWsConcat`, `PunctStepConcat`). A whitespace run becomes one space in place (`CollapseWsSplit`). A space between word characters is kept (`PunctStepKeepsSpace`). Whitespace beside punctuation is removed (`PunctStepTight`). Only whitespace is ever dropped (`NormalizeKeepsText`).
- CssText.Normalize: the placement of spaces is stated for the collapsing and tightening steps (`CollapseAndTightenKeepWordGap`), not for the whole pipeline. The final trim only removes the two end runs, as `Trim`'s contract states.
