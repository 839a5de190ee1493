# Tools: page splitting, Caesar stepping, metadata anonymizing and layer editing

The Tools repository holds four small desktop utilities. Each one wraps a
piece of sequential logic inside a Tk window. This project models that logic
in Dafny and proves properties of it. The window, the PDF and image
libraries and the file system are left out or abstracted.

- **PDF splitter** (`Tools/split_pdf.py`). `parse_pages` turns a 1-based page
  expression such as `"1-3,5"` into sorted zero-based indexes
  (`page_selection.dfy`, module `PageSelection`). `split_pdf` checks the
  source, works out the base name and the output directory, and writes one
  single-page PDF per selected page, named by `pattern.format(base=, num=,
  page=)`. It reports `(i, N)` after each write (`split_pdf.dfy`, module
  `PdfSplit`). A document is its page sequence plus an encrypted flag. The
  file system is a map from path to entry. The progress callback is a
  recorded sequence of events. `pattern.format` is modelled for the fields
  `base`, `num` and `page` with integer specs such as `03d`
  (`name_format.dfy`, module `NameFormat`).
- **Caesar cipher visualizer** (`Tools/caesar_cipher_visualizer.py`,
  `caesar.dfy`, module `Caesar`). This covers:
  - `caesar_shift`, as a loop and as its specification;
  - the chain of cycles built by `_prepare`;
  - the shift shown in the mapping view;
  - the `(ci, li)` step navigator;
  - the input and shift validity rules.
- **Metadata editor** (`Tools/metadata_editor.py`, `metadata.dfy`, module
  `Metadata`). This covers:
  - the split of a tick count into the two words of a Windows FILETIME;
  - the category → field → value table, with its two edits: Anonymize Safe
    and Update Field;
  - the rule that cuts the raw XMP packet out of a file's text.
- **Mini image editor** (`Tools/convert_img.py`, `image_editor.dfy`, module
  `ImageEditor`). This covers:
  - the layer stack and its selection;
  - move-to-top, hit testing and dragging;
  - the crop box and cropping;
  - the choice of save format from the extension;
  - the parsing of drag-and-drop data.

Two helper modules model the parts of Python's library the tools call:
- `pystr.dfy` (module `PyStr`): `str.strip`, `str.split`, `str.find`,
  slicing, `str.lower`, `int()` and `str()` of integers, over ASCII.
- `posix_path.dfy` (module `PosixPath`): `os.path.basename`, `dirname`,
  `splitext` and `join`, with POSIX separators.

`wrappers.dfy` holds the `Option` and `Result` types.

In each core file, the parts that change state step by step are modelled as
methods with loops:
- the token loop of `parse_pages`;
- the write loop of `split_pdf`;
- the loop of `caesar_shift`;
- the cycle loop of `_prepare`;
- the loops of `anonymize`;
- the reversed scan of `on_click`;
- the drop loop of `on_drop`.

Each of those methods is proved equal to a specification function, and the
properties are proved about that function. Objects whose fields the handlers
update are classes:
- `PdfSplit.Workspace`: the file map and the progress events;
- `Caesar.Visualizer`: `precomputed` and `step_index`;
- `Metadata.MetadataEditor`: `meta`;
- `ImageEditor.Layer` and `ImageEditor.Editor`.

`Layer.Contains` is the hit test of `convert_img.py:46-50`: it is false for a
layer not yet drawn, and otherwise it is the inclusive test
`x <= px <= x + w && y <= py <= y + h`. It is a predicate, and
`ImageEditor.TopmostHit` states its use.

## Model

| member | source | states |
|---|---|---|
| PageSelection.ZeroBased | Tools/split_pdf.py:22-23 | `int(s) - 1`: succeeds exactly when `s` parses as an integer, and the error names the literal otherwise |
| PageSelection.Range | Tools/split_pdf.py:24 | `range(lo, hi)` as a set: `p` is in it iff `lo <= p < hi`, and it is empty when `hi <= lo` |
| PageSelection.AllPages | Tools/split_pdf.py:13 | `list(range(total))`: length `total`, and entry `i` is `i` |
| PageSelection.ParsePages | Tools/split_pdf.py:10-27 | the loop over the comma-separated tokens returns the selection, which is strictly ascending and lies within `[0, total)` |
| PageSelection.AccumulateParts | Tools/split_pdf.py:15-26 | the token loop gives the union of the tokens' pages, or the first token's error |
| PageSelection.AddPart | Tools/split_pdf.py:17-26 | one loop iteration adds the token's pages to the set, or raises the token's error |
| PageSelection.AccumulateStep | Tools/split_pdf.py:16-26 | the set after token `i` is the set before it extended by token `i` |
| PageSelection.AccumulateErrSticky | Tools/split_pdf.py:16-26 | once a token raises, later tokens change nothing: the error propagates |
| PageSelection.AccumulateOkIff | Tools/split_pdf.py:16-26 | the loop succeeds iff every token succeeds |
| PageSelection.AccumulateIsUnion | Tools/split_pdf.py:15-26 | on success, `p` is collected iff some token contributes `p` |
| PageSelection.AccumulateContains | Tools/split_pdf.py:24-26 | every page a token contributes is collected |
| PageSelection.AccumulateWitness | Tools/split_pdf.py:24-26 | every collected page comes from some token |
| PageSelection.EmptySelectsAll | Tools/split_pdf.py:12-13 | `None` or `""` selects exactly `[0, 1, …, total-1]` |
| PageSelection.SelectionIsCanonical | Tools/split_pdf.py:15-27 | every successful selection is strictly ascending, so it has no duplicates, and every index lies in `[0, total)` |
| PageSelection.SelectionMembership | Tools/split_pdf.py:15-27 | for a non-empty expression, index `p` is selected iff `0 <= p < total` and some token's pages contain `p` |
| PageSelection.SelectionErrIff | Tools/split_pdf.py:16-26 | a non-empty expression raises iff one of its stripped tokens raises |
| PageSelection.AscendingBelowSpec | Tools/split_pdf.py:27 | `sorted(p for p in pages if 0 <= p < n)` is strictly ascending, within `[0, n)`, and holds exactly the members of `pages` in that range |
| PageSelection.AscendingBelowRange | Tools/split_pdf.py:24-27 | sorting and filtering `range(lo, hi)` gives `max(lo,0) .. min(hi,n)-1` in order |
| PageSelection.OneToken | Tools/split_pdf.py:16-27 | an expression with no comma is selected as its stripped single token |
| PageSelection.RangeToken | Tools/split_pdf.py:20-27 | `"a-b"` selects 1-based pages `a..b` clipped to the document as zero-based indexes; a reversed range and a zero head contribute what lies in range and never raise |
| PageSelection.RangeTokenPages | Tools/split_pdf.py:20-24 | the pages of a range token are `range(a-1, min(b, total))` |
| PageSelection.SingleToken | Tools/split_pdf.py:25-27 | a single page number `n` selects `[n-1]` when `1 <= n <= total` and is dropped silently otherwise |
| PageSelection.BlankSelectsNothing | Tools/split_pdf.py:12-19 | a non-empty expression of only blanks and commas (`" "`, `","`) selects nothing, not all pages |
| PageSelection.BlankAccumulate | Tools/split_pdf.py:18-19 | tokens that are all empty contribute nothing |
| PageSelection.JoinPartIsInfix | Tools/split_pdf.py:16 | each part of a split is a substring of the joined text |
| PageSelection.NonNumericTokenFails | Tools/split_pdf.py:26 | a token with no digit at all, such as `"abc"`, raises |
| PageSelection.MissingSideFails | Tools/split_pdf.py:21-23 | `"3-"` and `"-2"` raise, because the empty side is not an integer |
| PageSelection.TestPageRange | Tools/tests/test_split_pdf.py:23-31 | `"2-3"` on five pages selects indexes `[1, 2]` |
| NameFormat.SpacePad | Tools/split_pdf.py:62 | a width pads an integer on the left with spaces to at least that width and keeps its digits |
| NameFormat.Escape | Tools/split_pdf.py:62 | doubling the braces never shortens the text |
| NameFormat.LiteralText | Tools/split_pdf.py:62 | text without braces is copied into the name unchanged |
| NameFormat.ReplacementField | Tools/split_pdf.py:62 | a `{…}` field is replaced by its value, or the call raises that field's error |
| NameFormat.BaseField | Tools/split_pdf.py:62 | `{base}` is the base name |
| NameFormat.NumberField | Tools/split_pdf.py:62 | `{num:spec}` and `{page:spec}` format the output number or the page number by `spec` |
| NameFormat.ZeroPadSpec | Tools/split_pdf.py:62 | spec `03d` zero-pads the decimal digits to three places |
| NameFormat.PaddedNumberField | Tools/split_pdf.py:62 | `{num:03d}` is the output number zero-padded to three digits |
| NameFormat.DefaultPatternPieces | Tools/split_pdf.py:32 | the literal pieces of the default pattern hold no brace |
| NameFormat.NumberTail | Tools/split_pdf.py:62 | the default pattern's tail formats to the zero-padded number and `.pdf` |
| NameFormat.DefaultPatternName | Tools/split_pdf.py:32 | the default pattern names output `num` as `<base>_<num, three digits>.pdf` |
| NameFormat.DefaultNamesDistinct | Tools/split_pdf.py:32 | with the same base, distinct output numbers give distinct names |
| NameFormat.EscapeRoundTrip | Tools/split_pdf.py:62 | formatting the brace-escaped text gives the text back |
| NameFormat.UnknownName | Tools/split_pdf.py:62 | a field naming anything but `base`, `num` and `page` raises KeyError with that name |
| NameFormat.PageField | Tools/split_pdf.py:62 | `{page}` is the 1-based source page number in plain decimal |
| NameFormat.PlainPageField | Tools/split_pdf.py:62 | the field `page` without a spec is the decimal page number |
| NameFormat.SingleCloseBrace | Tools/split_pdf.py:62 | a lone `}` raises ValueError |
| PdfSplit.BaseName | Tools/split_pdf.py:55 | the base name contains no `/` |
| PdfSplit.Prepare | Tools/split_pdf.py:46-56 | a successful check yields a job whose indexes all name pages of the document and whose base name has no `/` |
| PdfSplit.MkdirErrorNone | Tools/split_pdf.py:57 | when `os.mkdir` raises nothing, the name is not empty and, unless it is all slashes, it is known by a name with a last component whose parent is a directory, and that name is a directory already or free |
| PdfSplit.MkdirErrorExists | Tools/split_pdf.py:57 | FileExistsError is raised only when a file that is not a directory holds the name |
| PdfSplit.Mkdir | Tools/split_pdf.py:57 | one `os.mkdir` as `makedirs` runs it: an error changes nothing; success leaves the name a directory and adds at most that one entry; an existing directory is no error; a well-formed file system stays well formed |
| PdfSplit.MkdirExtends | Tools/split_pdf.py:57 | `os.mkdir` keeps every entry and adds at most the one directory it names |
| PdfSplit.MkdirSucceeds | Tools/split_pdf.py:57 | inside a directory that is there, a name that is free or already a directory is made without error |
| PdfSplit.MakeDirs | Tools/split_pdf.py:57 | `os.makedirs(name, exist_ok=True)` keeps every entry and adds only directories; on success the name is a directory; FileExistsError only when a file holds the name; a well-formed file system stays well formed |
| PdfSplit.MakeDirsFailsUnchanged | Tools/split_pdf.py:57 | in a well-formed file system a failed `os.makedirs` changes nothing |
| PdfSplit.MakeDirsExisting | Tools/split_pdf.py:57 | with `exist_ok=True`, an existing directory is neither changed nor an error |
| PdfSplit.MakeDirsOneLevel | Tools/split_pdf.py:57 | a new name inside a directory that is there gets exactly that directory |
| PdfSplit.MakeDirsMakesParents | Tools/split_pdf.py:57 | `os.makedirs("a/b")` in an empty directory makes `a` and then `a/b` |
| PdfSplit.MakeDirsUnderFile | Tools/split_pdf.py:57 | under a file `a`, `os.makedirs("a/b")` raises NotADirectoryError and changes nothing |
| PdfSplit.DotDirectory | Tools/split_pdf.py:57 | a name ending in the component `.` is a directory when its directory part is |
| PdfSplit.NewEntryKeepsWellFormed | Tools/split_pdf.py:63 | a new entry with a last component, inside a directory that is there, keeps every directory and keeps the file system well formed |
| PdfSplit.OpenErrorIff | Tools/split_pdf.py:63 | `open(path, "wb")` raises nothing exactly when the path has a last component, its directory is there, and it is not a directory |
| PdfSplit.OpenErrorKept | Tools/split_pdf.py:63 | whether `open` raises depends only on which directories exist |
| PdfSplit.SameDirectories | Tools/split_pdf.py:63 | two file systems with the same directory entries agree on every directory name |
| PdfSplit.OpenMissingSubdirectory | Tools/split_pdf.py:62-63 | a name that reaches into a missing subdirectory, `sub/001.pdf` under `out`, makes `open` raise FileNotFoundError |
| PdfSplit.OpenEmptyName | Tools/split_pdf.py:62-63 | the empty name joined onto `out` is `out/`, and `open` raises IsADirectoryError |
| PdfSplit.OutputNames | Tools/split_pdf.py:62 | one formatted name per selected page |
| PdfSplit.OutputNameValid | Tools/split_pdf.py:62-63 | entry `i` of the names is output `i`'s formatted name, and its target carries the directory and last-component facts of `join(out_dir, filename)` |
| PdfSplit.OutputNamesValid | Tools/split_pdf.py:62-63 | every target the loop opens carries the facts of its own path |
| PdfSplit.ProgressEvents | Tools/split_pdf.py:65-66 | `k` events, the `i`-th being `(i, N)` |
| PdfSplit.Workspace.constructor | Tools/split_pdf.py:29-35 | a workspace starts with the given file map and no progress events |
| PdfSplit.Workspace.SplitPdf | Tools/split_pdf.py:29-66 | the call leaves the file map, the progress events and the error of the whole run described by `SplitOutcome`, which corrects the output directory `""` |
| PdfSplit.Workspace.MakeOutputDirectory | Tools/split_pdf.py:57 | `os.makedirs(out_dir, exist_ok=True)`, skipped for `""`: the file map and the error are those of `MakeDirs`, and no event is reported |
| PdfSplit.Workspace.WriteOutputs | Tools/split_pdf.py:59-66 | the write loop leaves the state given by `Iterate` over all selected pages |
| PdfSplit.Workspace.WriteOutput | Tools/split_pdf.py:60-66 | one pass formats name `idx`, opens its target, writes page `indexes[idx-1]` there and reports `(idx, N)` when asked, or stops with the naming or opening error, as `Write` says |
| PdfSplit.SplitOutcomeRejects | Tools/split_pdf.py:46-54 | a failed check changes nothing and reports its error |
| PdfSplit.SplitOutcomeNoDirectory | Tools/split_pdf.py:57 | when the directory cannot be made, nothing is written |
| PdfSplit.SplitOutcomeRuns | Tools/split_pdf.py:57-66 | otherwise the loop runs on the file map that has the directory |
| PdfSplit.SplitOutcomeWellFormed | Tools/split_pdf.py:29-66 | a whole call keeps the file system well formed: every entry has a last component and sits in a directory that is there |
| PdfSplit.CorrectionOnlyForEmpty | Tools/split_pdf.py:56-57 | the corrected call behaves as the source does whenever the output directory is not `""`; for `""` the source raises FileNotFoundError before writing anything |
| PdfSplit.WriteStep | Tools/split_pdf.py:60-66 | one iteration writes page `indexes[i-1]` to output path `i` and reports `(i, N)`, or stops with the naming or opening error and changes nothing else |
| PdfSplit.IterateErrorStays | Tools/split_pdf.py:59-66 | after an error the loop does no more: the exception ends it |
| PdfSplit.IterateLength | Tools/split_pdf.py:59-66 | the loop writes at most `n` files, and exactly `n` unless it stopped on an error |
| PdfSplit.IterateProgress | Tools/split_pdf.py:65-66 | with a callback, the events are `(1, N)`, …, `(k, N)` in increasing order with constant `N` for the `k` files written; without one, no event |
| PdfSplit.WriteProgress | Tools/split_pdf.py:65-66 | writing output `n` after `n-1` outputs appends `(n, N)` |
| PdfSplit.ProgressSnoc | Tools/split_pdf.py:65-66 | one more reported write extends the event list by the next event |
| PdfSplit.IterateWrittenPaths | Tools/split_pdf.py:62-63 | the `k`-th path written is output path `k`, named with `num=k` and `page=indexes[k-1]+1` |
| PdfSplit.WrittenSnoc | Tools/split_pdf.py:62-63 | appending output path `n` keeps the written list equal to the output paths in order |
| PdfSplit.IterateFrame | Tools/split_pdf.py:59-66 | only the output paths change: every other path keeps its entry, or its absence |
| PdfSplit.IterateContents | Tools/split_pdf.py:60-64 | when the output paths differ and the loop finished, output `i` holds exactly source page `indexes[i-1]` |
| PdfSplit.IterateSucceeds | Tools/split_pdf.py:59-66 | when every name formats and `open` accepts every target, the loop finishes and the directories stay as they were |
| PdfSplit.IterateWellFormed | Tools/split_pdf.py:59-66 | the loop keeps the file system well formed |
| PdfSplit.WriteWellFormed | Tools/split_pdf.py:60-64 | one iteration keeps the file system well formed |
| PdfSplit.IterateKeys | Tools/split_pdf.py:59-66 | the paths present afterwards are those present before plus those written |
| PdfSplit.MissingSourceFails | Tools/split_pdf.py:46-47 | a missing source, or a directory in its place, raises FileNotFoundError before any directory is made or file written |
| PdfSplit.EncryptedSourceFails | Tools/split_pdf.py:49-51 | an encrypted PDF raises RuntimeError before anything changes |
| PdfSplit.BadSelectionFails | Tools/split_pdf.py:53-54 | a malformed selection raises ValueError before anything changes |
| PdfSplit.DefaultOutputPath | Tools/split_pdf.py:62-63 | under the default pattern, output `i` goes to `join(out_dir, <base>_<iii>.pdf)` |
| PdfSplit.JoinInjective | Tools/split_pdf.py:63 | joining two relative names onto one directory gives equal paths only for equal names |
| PdfSplit.DefaultPathsDistinct | Tools/split_pdf.py:62-63 | under the default pattern, distinct outputs go to distinct paths |
| PdfSplit.DefaultNameStart | Tools/split_pdf.py:62 | a default name is non-empty and relative |
| PdfSplit.DefaultNamePlain | Tools/split_pdf.py:62 | a default name is non-empty, holds no `/` and ends in `f` |
| PdfSplit.JoinLonger | Tools/split_pdf.py:63 | joining a relative name gives a path longer than the directory, so never the directory itself |
| PdfSplit.DefaultPathWritable | Tools/split_pdf.py:62-63 | under the default pattern, once the output directory is there and output `i`'s path is not a directory, `open` can write that path |
| PdfSplit.DefaultTargetOpens | Tools/split_pdf.py:62-63 | under the same conditions, output `i`'s name formats to that path and `open` accepts its target |
| PdfSplit.DefaultIterate | Tools/split_pdf.py:59-66 | under the default pattern, once the output directory is there and no output path is a directory, output `i` is `<out_dir>/<base>_<iii>.pdf` holding page `indexes[i-1]`, every output is reported, only those files appear, and the directories stay as they were |
| PdfSplit.DefaultSplit | Tools/split_pdf.py:29-66 | a whole default call whose checks pass and whose directory step succeeds, with no output path a directory, writes every selected page as above, leaves the output directory in place, keeps every other entry, and adds nothing but the outputs and the directories `os.makedirs` made |
| PdfSplit.SampleBaseName | Tools/tests/test_split_pdf.py:17-19 | the base name of `<dir>/sample.pdf` is `sample` |
| PdfSplit.SampleName001 | Tools/tests/test_split_pdf.py:20 | the first default name for `sample` is `sample_001.pdf` |
| PdfSplit.SampleName002 | Tools/tests/test_split_pdf.py:30-31 | the second is `sample_002.pdf` |
| PdfSplit.SampleName003 | Tools/tests/test_split_pdf.py:21 | the third is `sample_003.pdf` |
| PdfSplit.SingleDigitName | Tools/split_pdf.py:62 | output `d` for `1 <= d <= 9` is named `<base>_00<d>.pdf` |
| PdfSplit.SampleJob | Tools/tests/test_split_pdf.py:17-27 | checking `<dir>/sample.pdf` yields its pages, the selection, base `sample` and the requested directory |
| PdfSplit.PlainDirName | Tools/tests/test_split_pdf.py:19 | the scenarios' directory is known by its own name, is not all slashes, and does not end in the component `.` |
| PdfSplit.SampleAbsent | Tools/tests/test_split_pdf.py:17-19 | in the scenarios' directory, no name other than `sample.pdf` is taken |
| PdfSplit.SampleOutputAbsent | Tools/tests/test_split_pdf.py:19-21 | the default names of `sample` are free in that directory |
| PdfSplit.SampleOutAbsent | Tools/tests/test_split_pdf.py:26-27 | neither `<dir>/out` nor any name inside it is taken |
| PdfSplit.SampleOutOutputAbsent | Tools/tests/test_split_pdf.py:26-27 | once `<dir>/out` is made, the default names of `sample` inside it are not directories |
| PdfSplit.SampleOutNew | Tools/tests/test_split_pdf.py:26-27 | `os.makedirs` on `<dir>/out` makes exactly that directory |
| PdfSplit.SplitAllPagesExample | Tools/tests/test_split_pdf.py:16-21 | splitting a three-page `sample.pdf` into its own directory writes `sample_001.pdf` to `sample_003.pdf`, in order, with output `i` holding page `i` |
| PdfSplit.SplitPageRangeExample | Tools/tests/test_split_pdf.py:23-31 | splitting pages `"2-3"` of five into `<dir>/out` creates that directory and writes exactly `sample_001.pdf` (page 2) and `sample_002.pdf` (page 3); nothing else appears |
| PdfSplit.SplitTwoPages | Tools/tests/test_split_pdf.py:23-31 | any selection of the second and third of five pages behaves the same way |
| PdfSplit.BareJob | Tools/split_pdf.py:55-56 | a PDF named without a `/` gets `""` as its output directory |
| PdfSplit.BareNameFailsAsWritten | Tools/split_pdf.py:56-57 | as written, splitting such a PDF with no output directory raises FileNotFoundError from `os.makedirs("")` before writing anything |
| PdfSplit.BareNameSplits | Tools/split_pdf.py:56-66 | corrected, the same call writes every page into the current directory under its default name |
| PdfSplit.NoDirectory | Tools/split_pdf.py:56-57 | a file system holding only the PDF has no directory |
| PdfSplit.BareOutputNames | Tools/split_pdf.py:63 | outputs written into `""` are named by their default names alone |
| PdfSplit.JoinNothing | Tools/split_pdf.py:63 | `os.path.join("", name)` is `name` |
| Caesar.LetterIndex | Tools/caesar_cipher_visualizer.py:13-16 | a letter's alphabet index lies in `0..25` |
| Caesar.Rotate | Tools/caesar_cipher_visualizer.py:12-17 | a letter at index `k` becomes the letter of the same case at `(k + shift) mod 26`, in range even for a negative shift |
| Caesar.CaesarShift | Tools/caesar_cipher_visualizer.py:5-21 | the character loop computes `Shifted(text, shift, preserve)` |
| Caesar.ShiftedAppend | Tools/caesar_cipher_visualizer.py:8-21 | the transform works character by character: the image of `a + b` is the image of `a` followed by that of `b` |
| Caesar.SeparatorIsSpace | Tools/caesar_cipher_visualizer.py:6-11 | the separators dot, dash and vertical bar become one space whether or not `preserve` is set |
| Caesar.ShiftMap | Tools/caesar_cipher_visualizer.py:8-20 | the per-character map keeps the length |
| Caesar.PieceIsMap | Tools/caesar_cipher_visualizer.py:8-20 | with `preserve`, each character yields exactly one character |
| Caesar.PreservedIsMap | Tools/caesar_cipher_visualizer.py:8-20 | with `preserve`, the result is the per-character map, of the same length as the input |
| Caesar.DroppedOthers | Tools/caesar_cipher_visualizer.py:18-21 | without `preserve`, the result is no longer than the input and holds only letters and spaces |
| Caesar.Kept | Tools/caesar_cipher_visualizer.py:18-21 | the kept characters are no more than the input |
| Caesar.DroppedIsKept | Tools/caesar_cipher_visualizer.py:18-21 | without `preserve`, the result is the preserved transform of the text with its other characters removed |
| Caesar.RotateCompose | Tools/caesar_cipher_visualizer.py:12-17 | rotating by `a` and then by `b` is rotating by `a + b` |
| Caesar.ModAdd | Tools/caesar_cipher_visualizer.py:13-16 | Python's `%` by 26 absorbs an inner reduction |
| Caesar.ModMinusMultiple | Tools/caesar_cipher_visualizer.py:13-16 | a multiple of 26 does not change an index mod 26 |
| Caesar.MapCharCompose | Tools/caesar_cipher_visualizer.py:8-20 | mapping a character by `a` and then by `b` is mapping it by `a + b` |
| Caesar.ShiftMapCompose | Tools/caesar_cipher_visualizer.py:8-20 | the same for whole texts |
| Caesar.ShiftedCompose | Tools/caesar_cipher_visualizer.py:5-21 | with `preserve`, two shifts compose into one by their sum |
| Caesar.ShiftMapIdentity | Tools/caesar_cipher_visualizer.py:8-20 | a shift by a multiple of 26 leaves a separator-free text as it is |
| Caesar.ShiftedIdentity | Tools/caesar_cipher_visualizer.py:5-21 | the same for the preserved transform |
| Caesar.DecryptUndoesEncrypt | Tools/caesar_cipher_visualizer.py:272 | for text with no separator, decrypting with `-shift` undoes encrypting with `shift`, both with `preserve` |
| Caesar.UndoShift | Tools/caesar_cipher_visualizer.py:272 | shifting back by `-shift` restores the text |
| Caesar.SeparatorNotRestored | Tools/caesar_cipher_visualizer.py:9-11 | a separator does not come back: `"."` encrypted and decrypted is `" "` |
| Caesar.Cycles | Tools/caesar_cipher_visualizer.py:274-278 | `precomputed` has one entry per cycle |
| Caesar.CyclesChain | Tools/caesar_cipher_visualizer.py:274-278 | entry 0's input is the original text, entry `k`'s input is entry `k-1`'s output, and each output is the transform of its input |
| Caesar.CyclesEntry | Tools/caesar_cipher_visualizer.py:274-278 | entry `k` is the text after `k` cycles paired with the text after `k + 1` |
| Caesar.TimesIsProduct | Tools/caesar_cipher_visualizer.py:275-278 | `k` repeated shifts add up to `k * shift` |
| Caesar.TimesNegated | Tools/caesar_cipher_visualizer.py:272-278 | `k` decrypting shifts add up to minus the encrypting total |
| Caesar.CycleOutputShift | Tools/caesar_cipher_visualizer.py:274-278 | with `preserve`, the text after `k` cycles is the text shifted once by `k * shift` |
| Caesar.CycleOutputTimes | Tools/caesar_cipher_visualizer.py:274-278 | the text after `k` cycles is the per-character map by the accumulated shift |
| Caesar.CycleOutputNext | Tools/caesar_cipher_visualizer.py:276-278 | one more cycle adds one more `shift` to the accumulated shift |
| Caesar.ShiftAgain | Tools/caesar_cipher_visualizer.py:276 | shifting a mapped text once more maps it by the sum |
| Caesar.CyclesRoundTrip | Tools/caesar_cipher_visualizer.py:272-278 | decrypting with the same number of cycles gives back the text that was encrypted, separators aside |
| Caesar.UndoCycles | Tools/caesar_cipher_visualizer.py:272-278 | `n` decrypting cycles undo the accumulated shift of `n` encrypting ones |
| Caesar.MapUndo | Tools/caesar_cipher_visualizer.py:272 | mapping by a total and then by its negation restores the text |
| Caesar.CyclesLast | Tools/caesar_cipher_visualizer.py:274-278 | the final output is the text after all the cycles |
| Caesar.RecoveredShift | Tools/caesar_cipher_visualizer.py:297 | when the first input character is a letter, `(ord(out[0]) - ord(in[0])) % 26` is `shift mod 26`, in the mapping view and in the animation |
| Caesar.NextAtEnd | Tools/caesar_cipher_visualizer.py:316-318 | `next_step` changes nothing once `ci` is past the last cycle |
| Caesar.PrevAtStart | Tools/caesar_cipher_visualizer.py:325-332 | `prev_step` at `(0, 0)` stays at `(0, 0)` |
| Caesar.StepsStayValid | Tools/caesar_cipher_visualizer.py:316-332 | when every cycle input is non-empty, both moves keep the step within the cycles and their letters |
| Caesar.PrevUndoesNext | Tools/caesar_cipher_visualizer.py:316-332 | when every input is non-empty, `prev` undoes `next` before the end |
| Caesar.NextUndoesPrev | Tools/caesar_cipher_visualizer.py:316-332 | when every input is non-empty, `next` undoes `prev` away from `(0, 0)` |
| Caesar.PrevIntoEmptyCycle | Tools/caesar_cipher_visualizer.py:329-331 | stepping back into a cycle with an empty input sets `li` to -1 |
| Caesar.ChainCycles | Tools/caesar_cipher_visualizer.py:274-278 | the loop that threads `txt` through the cycles builds `Cycles` |
| Caesar.Visualizer.constructor | Tools/caesar_cipher_visualizer.py:79-80 | nothing precomputed and the step at `(0, 0)` |
| Caesar.Visualizer.Prepare | Tools/caesar_cipher_visualizer.py:265-283 | `_prepare` succeeds iff `int()` accepts the shift text; it then precomputes the cycles with `s` or `-s` (no cycles for a negative count) and, unless animating, resets the step; on failure nothing changes |
| Caesar.Visualizer.NextStep | Tools/caesar_cipher_visualizer.py:316-323 | the step moves as `NextOf` says; `precomputed` is unchanged |
| Caesar.Visualizer.PrevStep | Tools/caesar_cipher_visualizer.py:325-332 | the step moves as `PrevOf` says, and fails exactly where `prev_step` would index out of range |
| Caesar.AcceptsPrefix | Tools/caesar_cipher_visualizer.py:199-202 | input is accepted iff it has at most 50 characters, so every prefix of accepted input is accepted |
| Caesar.ValidShiftOfNumber | Tools/caesar_cipher_visualizer.py:222 | the shift rule of `validate_widgets` (whose state reaches no button in this window) accepts a decimal shift iff it is between 1 and 25 |
| Caesar.ValidShiftParses | Tools/caesar_cipher_visualizer.py:222 | a shift that rule accepts is read by `int()` as its digits' value |
| Caesar.PrepareAcceptsInvalidShift | Tools/caesar_cipher_visualizer.py:265-272 | `_prepare` does not apply the 1..25 rule of `validate_widgets`: the rule rejects `"0"`, yet `int("0")` succeeds |
| Metadata.ToFileTime | Tools/metadata_editor.py:29-31 | both words lie below 2^32 |
| Metadata.FileTimeWords | Tools/metadata_editor.py:30-31 | for `0 <= us < 2^64`, `high * 2^32 + low == us`, following section 2.3.3 of [MS-DTYP] |
| Metadata.FileTimeInjective | Tools/metadata_editor.py:30-31 | in that range, distinct times give distinct FILETIMEs |
| Metadata.UnixEpochFileTime | Tools/metadata_editor.py:30-31 | tick count 0 is FILETIME `0x019DB1DE:D53E8000` |
| Metadata.BeforeFileTimeEpoch | Tools/metadata_editor.py:30-31 | one tick before 1601 wraps to all ones in both words |
| Metadata.DatesReplaced | Tools/metadata_editor.py:266-267 | the date loop keeps the file-system keys |
| Metadata.ExifAnonymized | Tools/metadata_editor.py:269-272 | the EXIF loop keeps the EXIF keys |
| Metadata.Blanked | Tools/metadata_editor.py:273-276 | blanking keeps the keys |
| Metadata.Anonymized | Tools/metadata_editor.py:263-277 | anonymizing creates and drops no category |
| Metadata.StepsAnonymize | Tools/metadata_editor.py:265-276 | rewriting the four categories one after another gives the whole-table rule |
| Metadata.StepFrame | Tools/metadata_editor.py:265-276 | each step rewrites its own category only, and only when present |
| Metadata.AnonymizeExif | Tools/metadata_editor.py:269-272 | the loop over the EXIF keys computes the EXIF rule |
| Metadata.BlankAll | Tools/metadata_editor.py:273-276 | the loop sets every value to `""` |
| Metadata.AnonymizeFileSystem | Tools/metadata_editor.py:265-268 | the date loop and the `Owner` assignment compute the file-system rule |
| Metadata.MetadataEditor.constructor | Tools/metadata_editor.py:211-224 | the editor holds the loaded table |
| Metadata.MetadataEditor.Anonymize | Tools/metadata_editor.py:263-277 | the table afterwards is `Anonymized` of the table before |
| Metadata.MetadataEditor.UpdateField | Tools/metadata_editor.py:253-261 | the table afterwards is the updated table, or unchanged together with the KeyError |
| Metadata.FileSystemRule | Tools/metadata_editor.py:264-268 | `Created`, `Modified` and `Accessed` become the placeholder only if present, `Owner` is set to `""`, and everything else is kept |
| Metadata.ExifRule | Tools/metadata_editor.py:269-272 | a key starting with `GPS` becomes None; otherwise a key containing `DateTime` becomes the placeholder; any other key is kept |
| Metadata.GpsRuleWins | Tools/metadata_editor.py:271-272 | the GPS rule wins: `GPSDateTime` becomes None |
| Metadata.LoadedExifFields | Tools/metadata_editor.py:269-272 | `DateTimeOriginal` and `DateTime` become the placeholder, and `GPSLatitude` becomes None |
| Metadata.AnonymizeShape | Tools/metadata_editor.py:265-276 | the EXIF, IPTC and PNG key sets are kept, the file-system one gains at most `Owner`, IPTC and PNG values are all `""`, no category is created, and the risky categories are untouched |
| Metadata.ExifValueIdempotent | Tools/metadata_editor.py:269-272 | the EXIF rule applied twice is applied once |
| Metadata.CategoryIdempotent | Tools/metadata_editor.py:265-276 | so is each category's rule |
| Metadata.AnonymizeIdempotent | Tools/metadata_editor.py:263-277 | anonymizing twice equals anonymizing once |
| Metadata.UpdateIgnoresOtherRows | Tools/metadata_editor.py:257 | a row that is not tagged safe, or that does not hold three values, changes nothing |
| Metadata.UpdateChangesOneCell | Tools/metadata_editor.py:258-260 | for an editable row of a present category, only `meta[cat][f]` changes, and it becomes the new text |
| Metadata.UpdateMissingCategory | Tools/metadata_editor.py:260 | an editable row naming a missing category raises KeyError |
| Metadata.RawXmpAsWritten | Tools/metadata_editor.py:216-217 | the cut is a piece of the file's text, no longer than the text |
| Metadata.RawXmp | Tools/metadata_editor.py:216-217 | the intended packet is empty, or it starts with `<x:xmpmeta` and ends with `</x:xmpmeta>` |
| Metadata.XmpWithoutOpening | Tools/metadata_editor.py:216-217 | without the opening tag the packet is `""` |
| Metadata.XmpPacket | Tools/metadata_editor.py:216-217 | with the opening tag before a closing tag, the slice runs from `<x:xmpmeta` through `</x:xmpmeta>` |
| Metadata.XmpClosingFirst | Tools/metadata_editor.py:216-217 | a closing tag before the opening tag gives `""` |
| Metadata.ClosingTagHasOneBracket | Tools/metadata_editor.py:216 | the closing tag contains no `<` after its first character |
| Metadata.XmpMissingClosing | Tools/metadata_editor.py:216-217 | as written, a missing closing tag makes `e` 11, so the cut is `raw[s:11]` when the opening tag starts before index 11, and `""` otherwise |
| Metadata.XmpFragmentAsWritten | Tools/metadata_editor.py:216-217 | as written, a file holding only `<x:xmpmeta>` yields that fragment, where the intended rule gives `""` |
| Metadata.XmpNeedsClosing | Tools/metadata_editor.py:216-217 | corrected, a missing closing tag always gives `""` |
| ImageEditor.Layer.constructor | Tools/convert_img.py:15-23 | a new layer has the given position, size and path, scale 1.0, and is not yet drawn |
| ImageEditor.Layer.UpdateCanvas | Tools/convert_img.py:37-44 | drawing marks the layer drawn and keeps its position, size and scale |
| ImageEditor.RemoveFirst | Tools/convert_img.py:136 | `list.remove` drops one element when present and nothing otherwise |
| ImageEditor.IndexOf | Tools/convert_img.py:136 | the first occurrence of the layer |
| ImageEditor.RemoveFirstCuts | Tools/convert_img.py:136 | removing cuts out exactly the first occurrence |
| ImageEditor.CutAfterHead | Tools/convert_img.py:136 | the cut commutes with a leading element |
| ImageEditor.RemoveFirstMultiset | Tools/convert_img.py:136 | removing takes away one copy and nothing else |
| ImageEditor.MoveToTopSpec | Tools/convert_img.py:134-138 | selecting makes the layer the last element, keeps the others in their relative order, and the list stays a permutation of itself |
| ImageEditor.MoveTopmost | Tools/convert_img.py:129-137 | selecting a layer just appended leaves the list as it is |
| ImageEditor.DistinctAfterMove | Tools/convert_img.py:134-138 | moving to the top keeps a list of distinct layers distinct |
| ImageEditor.TopmostHit | Tools/convert_img.py:153-159 | the hit is the last layer containing the point, or -1 when none does |
| ImageEditor.ScanTopmost | Tools/convert_img.py:153-159 | the reversed scan finds that layer |
| ImageEditor.CropBox | Tools/convert_img.py:183-188 | the box has non-negative coordinates with `left <= right` and `top <= bottom` |
| ImageEditor.CropBoxSymmetric | Tools/convert_img.py:183-188 | the box does not depend on the drag direction |
| ImageEditor.CropBoxInside | Tools/convert_img.py:183-188 | for a drag inside the layer, the box spans the dragged rectangle, relative to the layer's origin |
| ImageEditor.FormatTable | Tools/convert_img.py:294-304 | `.jpg`/`.jpeg` → JPEG, `.bmp` → BMP, `.tif`/`.tiff` → TIFF, `.gif` → GIF, anything else → PNG; all but PNG and TIFF are converted to RGB |
| ImageEditor.UpperCaseExtension | Tools/convert_img.py:294-298 | the extension is lower-cased first, so `photo.JPG` is saved as JPEG |
| ImageEditor.BraceGroups | Tools/convert_img.py:115 | `re.findall(r'\{([^}]+)\}', …)` yields non-empty groups without `}` |
| ImageEditor.BracedPath | Tools/convert_img.py:115 | a braced path is one group, and scanning goes on after it |
| ImageEditor.NoBraces | Tools/convert_img.py:115 | data without `{` has no group |
| ImageEditor.TwoBracedPaths | Tools/convert_img.py:115-117 | `{a} {b}` drops the two paths `a` and `b`, stripped |
| ImageEditor.TwoGroups | Tools/convert_img.py:115 | `{a} {b}` holds the groups `a` and `b` |
| ImageEditor.SkipChar | Tools/convert_img.py:115 | a character other than `{` before the groups changes nothing |
| ImageEditor.PlainPaths | Tools/convert_img.py:115-117 | without braces, the candidate paths are the whitespace-split words |
| ImageEditor.Added | Tools/convert_img.py:118-126 | a dropped path adds a layer only if it names a file that opens as an image |
| ImageEditor.OpenedUpTo | Tools/convert_img.py:116-119 | the paths that add layers are among the dropped ones and are openable images |
| ImageEditor.OpenedEvery | Tools/convert_img.py:116-119 | when every path opens, every path adds a layer |
| ImageEditor.OpenedEveryUpTo | Tools/convert_img.py:116-119 | the same for each prefix of the loop |
| ImageEditor.OpenedNoneUpTo | Tools/convert_img.py:116-126 | when no path opens, no layer is added |
| ImageEditor.LayersForSnoc | Tools/convert_img.py:127-129 | appending a layer at (10, 10) with scale 1.0 for the next opened path extends the record of added layers |
| ImageEditor.Editor.constructor | Tools/convert_img.py:58-60 | no layer, no selection, zero offset, no crop |
| ImageEditor.Editor.SelectLayer | Tools/convert_img.py:134-138 | the layer becomes the selection and moves to the top |
| ImageEditor.Editor.AddLayer | Tools/convert_img.py:121-130 | a file that does not open changes nothing; otherwise one new layer at (10, 10) with scale 1.0, the image's size and its path is appended and left selected on top |
| ImageEditor.Editor.DropFile | Tools/convert_img.py:117-119 | one dropped path adds at most one layer, on top and selected, and keeps the layers below |
| ImageEditor.Editor.OnDrop | Tools/convert_img.py:112-119 | the layers are the old ones plus one per openable dropped path, in order; the last one added, if any, is selected |
| ImageEditor.Editor.DropAll | Tools/convert_img.py:116-119 | the drop loop adds the layers as `Dropped` records |
| ImageEditor.Editor.DroppedAll | Tools/convert_img.py:116-119 | after the loop, the new layers carry the opened paths in order, and the selection is the last of them or unchanged |
| ImageEditor.Editor.DropNone | Tools/convert_img.py:116 | before the loop, nothing has been dropped |
| ImageEditor.Editor.DropStep | Tools/convert_img.py:117-119 | one iteration extends the record by one path |
| ImageEditor.Editor.OnClick | Tools/convert_img.py:150-161 | a pending crop makes a click do nothing; otherwise the click selects the topmost layer containing the point, moves it to the top and sets the drag offset to the point minus the layer origin, or clears the selection when there is no hit |
| ImageEditor.Editor.OnDrag | Tools/convert_img.py:163-176 | with a selection and no crop, the layer origin becomes the cursor minus the drag offset, so the grab point stays under the cursor; with a crop, or without a selection, no layer moves |
| ImageEditor.Editor.ArmCrop | Tools/convert_img.py:209-214 | with a selection the crop start is cleared; without one nothing changes |
| ImageEditor.Editor.SetCropStart | Tools/convert_img.py:215-217 | the first press after arming records the crop start, and later ones keep it |
| ImageEditor.Editor.OnRelease | Tools/convert_img.py:178-195 | with a crop and a selection, the layer takes the crop box's size at the same origin, scale resets to 1.0, it is redrawn, and the crop state is cleared; otherwise nothing changes |
| PyStr.StripSpec | Tools/split_pdf.py:17 | `strip()` removes exactly the leading and trailing whitespace |
| PyStr.Split | Tools/split_pdf.py:16-21 | `split(',')` yields at least one part, the parts hold no comma, and joining them gives the text back |
| PyStr.SplitJoin | Tools/split_pdf.py:16 | splitting a join of comma-free parts gives the parts back |
| PyStr.SplitWords | Tools/convert_img.py:115 | `split()` yields non-empty words without whitespace |
| PyStr.SplitWordsKeepsText | Tools/convert_img.py:115 | the words are the text with its whitespace removed |
| PyStr.Find | Tools/metadata_editor.py:216 | `find` gives the first occurrence, or -1 when there is none |
| PyStr.Lower | Tools/convert_img.py:294 | `lower()` maps each ASCII capital to its small letter and keeps everything else |
| PyStr.NatToStringValue | Tools/split_pdf.py:62 | the decimal digits of `n` read back as `n` |
| PyStr.PaddedValue | Tools/split_pdf.py:62 | zero-padding does not change the value |
| PyStr.ParseInt | Tools/split_pdf.py:22-26 | `int()` succeeds iff the stripped text is digits with an optional sign |
| PyStr.ParseIntOfNatToString | Tools/split_pdf.py:22-26 | `int(str(n))` is `n`, and `int("-" + str(n))` is `-n` |
| PyStr.ParseIntNeedsDigit | Tools/split_pdf.py:26 | text without digits does not parse |
| PosixPath.Basename | Tools/split_pdf.py:55 | `basename` is the part after the last `/`, and it is empty exactly when the path is empty or ends in `/` |
| PosixPath.RFind | Tools/split_pdf.py:55 | `rfind` gives the last index holding the character, or -1 when there is none |
| PosixPath.BasenameTests | Tools/split_pdf.py:63 | `Named(p)` holds iff `basename(p)` is not empty, and `DotNamed(p)` iff `basename(p)` is `.` |
| PosixPath.RStripSep | Tools/split_pdf.py:57 | stripping trailing slashes leaves a prefix that ends in no `/`, with only slashes cut |
| PosixPath.RStripSepSnoc | Tools/split_pdf.py:57 | one more trailing slash is stripped with the rest |
| PosixPath.TrimSep | Tools/split_pdf.py:57 | a name that is not all slashes is trimmed to one that ends in no `/` |
| PosixPath.JoinDirname | Tools/split_pdf.py:63 | `dirname(join(d, name))`, for a name without `/`, is `d` without its trailing slashes |
| PosixPath.DirnameTrimmed | Tools/split_pdf.py:57 | `dirname` leaves no trailing slash to trim |
| PosixPath.DotDirname | Tools/split_pdf.py:57 | a path whose last component is `.` has a `/` before that component, and the part before that `/` is all slashes or is known by `dirname` |
| PosixPath.Dirname | Tools/split_pdf.py:56 | `dirname` of a path without `/` is `""` |
| PosixPath.Splitext | Tools/split_pdf.py:55 | `splitext` splits the path into root and extension, with the extension empty or a dot followed by neither a dot nor a `/` |
| PosixPath.Join | Tools/split_pdf.py:63 | `join` keeps an absolute second part and otherwise inserts one `/` |
| PosixPath.SplitextAt | Tools/split_pdf.py:55 | `sample.pdf` splits at its last dot |

## Left out

- The Tk windows, widgets, themes, canvases, dialogs, message boxes, event
  bindings and `after` timers of all four tools are left out. So are
  `redraw`, `draw_step`, `draw_mapping`, `_draw_letters` and the animation
  schedule. They only present the state the model keeps.
- The pypdf reader and writer are replaced by a document value: the pages,
  and a flag for encryption. Real reading, parsing and writing of files is
  not modelled. `os.path.isfile`, `os.makedirs` and `open(..., "wb")` act on
  a map from path to entry.
- The command-line block of `split_pdf.py`, the background thread of the
  split window and its float progress percentage are left out. They are I/O,
  concurrency and floating point.
- `split_pdf` returns nothing in the code, and it raises Python's own
  exceptions. The model follows the code. It does not return the list of
  written paths. The paths written are recorded in the model's `Run` value.
- The default pattern is the literal `{base}_{num:03d}.pdf`, as in the code.
  It is not derived from the source file's extension.
- `str.format` is modelled only for the fields `base`, `num` and `page`,
  with integer specs of the form `[0][width][d]`. Conversions, attribute
  access, nested fields and the rest of the format mini-language are left
  out.
- Paths follow POSIX rules only. Windows separators and drive letters are
  not modelled.
- Strings are ASCII text. Python's Unicode `isupper`, `islower`, `isdigit`
  and `strip` behaviour is not modelled. `int()` does not accept underscores
  between digits.
- The Pillow image operations are left out: resize, brightness, invert,
  text, paste and GIF writing. Layer scale is kept as a field but never used
  in arithmetic, since `int(width * scale)` is floating point. A layer's
  size is the displayed size, and pixel contents are not modelled.
  `resize_layer` is not modelled, for the same reason.
- The GIF check after `_add_layer` (`_check_gif`, `_make_gif`) and the EXIF
  timestamp lookup of `Layer` are left out. They use a float threshold and
  read files.
- After a crop, the image is not rebound to the canvas's click handler. The
  model keeps only the `crop_start` field and the two steps that set it.
- The metadata editor's loading, its saving through piexif and iptcinfo3,
  and `os.utime` are left out. So are the ctypes Windows calls in
  `set_creation_time` and the `datetime` parsing. The FILETIME split takes
  the tick count `int(dt.timestamp() * 1e7)` as an integer input, because
  that product is floating point.
- `populate_tree` and the tree rows are left out. `update_field` receives the
  selected row's tags and values as a value.
- ImageEditor.Editor.OnDrop: states that the new layers carry the opened
  paths in order and that the stack stays free of duplicates. It does not
  state that each new layer is a fresh object. `AddLayer` and `DropFile`
  state freshness for one layer at a time.
- PdfSplit.Workspace.SplitPdf: follows the corrected directory step, which
  treats the output directory `""` as the current directory and makes
  nothing. The source calls `os.makedirs("")` there and raises
  FileNotFoundError. `SplitOutcomeAsWritten` models that behaviour, and
  `CorrectionOnlyForEmpty` proves that it is the only difference.
- PdfSplit.Workspace.MakeOutputDirectory: skips `""` for the same reason.
  For any other name it is `os.makedirs(out_dir, exist_ok=True)` as written.
- Paths are compared as strings. `..` components, and `/` repeated inside
  a path, are not resolved, so `a//b` and `a/b` name different entries.
  Trailing slashes and a last component `.` are handled.
- The error kind of `open` for an output path with a file further up than
  its own directory: Python raises NotADirectoryError, and the model raises
  FileNotFoundError. It gives NotADirectoryError only when the immediate
  directory is a file. `os.makedirs` is not affected: its recursion reaches
  the file and raises NotADirectoryError, as Python does.
- Permissions, symbolic links and a full disk are not modelled, so `open`
  and `os.mkdir` fail only on the cases above.
- Caesar.RecoveredShift: proved only when the first input character is a
  letter. For a separator or any other first character, the displayed value
  is not the shift, and `draw_step` raises on an empty input.
- Metadata.FileTimeWords: stated only for `0 <= us < 2^64`. The FILETIME's
  DWORD fields keep only 32 bits each, so outside that range the two words
  hold `us` modulo 2^64.

## Findings

| source | as written | input that shows it | evidently intended | confidence | as-written member | corrected member |
|---|---|---|---|---|---|---|
| Tools/split_pdf.py:56-57 | `out_dir = out_dir or os.path.dirname(pdf_path)`, then `os.makedirs(out_dir, exist_ok=True)` | `split_pdf("sample.pdf")` with no output directory: `dirname` is `""`, and `os.makedirs("")` raises FileNotFoundError before any page is written | the output directory defaults to the PDF's own folder, here the current directory, so the pages are written next to the PDF | not executed | PdfSplit.BareNameFailsAsWritten | PdfSplit.BareNameSplits |
| Tools/metadata_editor.py:216-217 | `e = raw.find("</x:xmpmeta>") + 12`, so a missing closing tag makes `e` 11 and `raw[s:11]` is kept whenever `s < 11` | a file whose text is `<x:xmpmeta>` with no closing tag yields `"<x:xmpmeta>"` as its Raw XMP | no packet without its closing tag: the field is `""` | not executed | Metadata.XmpFragmentAsWritten | Metadata.XmpNeedsClosing |
