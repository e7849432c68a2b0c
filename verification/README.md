# E-book converter page: a Dafny model

The page lets a user pick an e-book file and a source and target format
among EPUB, MOBI, PDF, TXT and FB2. The user then presses Convert and
downloads the result. No real conversion takes place. After a fixed delay
the page reads the file and copies its bytes into a blob tagged
`application/<target>`.

This project models three parts of the page:

- **File-name helpers** (`file_utils.dfy`, module `FileUtils`).
  - `DetectFileFormat` guesses a format from a file name. It lower-cases the
    name, splits it on `.`, takes the last piece and looks that piece up in
    a five-entry map.
  - `GetOutputFileName` keeps the part of the name before the last `.` and
    appends `.` and the new format.
  - The JavaScript string built-ins these helpers use are modelled in
    `js_strings.dfy` (module `JsStrings`): `toLowerCase`, `lastIndexOf`,
    `substring` (with its clamping and argument swap), and `split`/`pop`.
    `Join` and an ASCII `ToUpperCase` are there only to state properties:
    what splitting means, and that detection ignores letter case.
- **Format catalog** (`format_selector.dfy`, module `FormatSelector`).
  - The five `Format` records, in display order.
  - The identifier a chooser reports when one of its buttons is clicked.
  - Which button is drawn as selected.
- **Workflow of the page** (`app.dfy`, module `App`).
  - An immutable `State` holds the six pieces of component state: selected
    file, source format, target format, status, error message and
    converted artifact.
  - It also holds the conversions in flight. Each is a `Job` that records
    the file and the target format captured when Convert was pressed.
  - User actions and read completions are `Event`s, and `Step` applies one.
  - `Inv` is the invariant of every reachable state:
    - both formats are catalog identifiers;
    - an artifact exists exactly when the status is `success`;
    - the status is never `error`;
    - at most one conversion is in flight.

`File` is modelled as a name and a byte sequence, and `Blob` as a byte
sequence and a media type.

The model follows the code, including these behaviours of it:

- A file name with no `.` is matched as a whole: `"EPUB"` is detected as
  `epub`.
- A name with no `.` is renamed to just `.<format>`, because
  `substring(0, -1)` is `""`.
- A failed read does not lead to the `error` status. The error is thrown
  inside the reader's callback, after the `try` block has already finished,
  so the `catch` never sees it. The status stays `converting`, and with no
  read left to complete it never changes again. The Convert button
  therefore stays disabled for good (`App.ConvertingWithoutJobIsStuck`,
  `App.ReadFailureBlocks`). As a result the `error` status and a non-empty
  error message are unreachable (`App.ReachableInv`).
- Selecting a new file does not discard the previous artifact
  (`App.SelectionKeepsWorkflow`).
- The artifact's media type uses the target format captured when Convert
  was pressed. The download name uses the target format at download time.
  Changing the target during a conversion makes the two disagree
  (`App.TargetChangedDuringConversion`).

## Model

| member | source | states |
|---|---|---|
| `JsStrings.LastIndexOf` | src/utils/fileUtils.ts:23 | the result is -1 exactly when the character does not occur; otherwise the character is at that position and at no later one |
| `JsStrings.Split` | src/utils/fileUtils.ts:2 | splitting on `.` gives at least one piece, and no piece contains `.` |
| `JsStrings.JoinSplit` | src/utils/fileUtils.ts:2 | joining the pieces of a split with the separator gives back the original string |
| `JsStrings.SplitJoin` | src/utils/fileUtils.ts:2 | splitting the join of at least one separator-free piece gives back the pieces |
| `JsStrings.LastDotOfLowerCase` | src/utils/fileUtils.ts:2 | lower-casing a name leaves its last `.` at the same position |
| `JsStrings.SubstringFacts` | src/utils/fileUtils.ts:23 | `substring` is a slice when its arguments are in range, does not depend on argument order, and gives `""` for `(0, -1)` |
| `FileUtils.DetectFileFormat` | src/utils/fileUtils.ts:1-13 | the detected format is `""` or one of `epub`, `mobi`, `pdf`, `txt`, `fb2`; a non-empty result is a map key that stands for itself |
| `FileUtils.DetectByLastDot` | src/utils/fileUtils.ts:2-12 | `split('.').pop()` followed by the lookup gives the lower-cased text after the last `.` (all of the name when there is none) if that text is a key, else `""` |
| `FileUtils.DetectDotted` | src/utils/fileUtils.ts:2-12 | for `p + "." + q` with `q` free of `.`, the result is lower-cased `q` if it is a key, else `""`, whatever `p` is |
| `FileUtils.DetectDotless` | src/utils/fileUtils.ts:2-12 | a name without `.` is looked up as a whole, after lower-casing |
| `FileUtils.DetectTrailingDot` | src/utils/fileUtils.ts:2-12 | a name ending in `.` is never recognised |
| `FileUtils.DetectCaseInsensitive` | src/utils/fileUtils.ts:2 | ASCII upper-casing or lower-casing a name does not change what is detected |
| `FileUtils.DetectRecognisesFormat` | src/utils/fileUtils.ts:4-12 | every key, in lower case or ASCII upper case and after any prefix and `.`, is detected as itself |
| `FileUtils.DetectExampleUpperCaseExtension` | src/utils/fileUtils.ts:2 | `"story.TXT"` is detected as `txt` |
| `FileUtils.DetectExampleDoubleExtension` | src/utils/fileUtils.ts:2-12 | `"a.tar.epub"` is detected as `epub` |
| `FileUtils.DetectExampleUnknownExtension` | src/utils/fileUtils.ts:12 | `"name.xyz"` is detected as `""` |
| `FileUtils.DetectExampleDotlessName` | src/utils/fileUtils.ts:2 | `"EPUB"` is detected as `epub` |
| `FileUtils.GetOutputFileName` | src/utils/fileUtils.ts:22-25 | the result ends in `"." + newFormat` and starts with a prefix of the original name; with a `.` in the name, that prefix stops exactly at the last `.`; without one, the result is `"." + newFormat` |
| `FileUtils.OutputNameReplacesLastExtension` | src/utils/fileUtils.ts:22-24 | renaming `p + "." + q`, with `q` free of `.`, gives `p + "." + newFormat`, so only the last extension is replaced |
| `FileUtils.OutputNameIdempotent` | src/utils/fileUtils.ts:22-24 | renaming twice to the same format without `.` gives the same result as renaming once |
| `FileUtils.DetectOutputName` | src/utils/fileUtils.ts:22-24 | a name renamed to a recognised format is detected as that format |
| `FileUtils.OutputNameExampleSimple` | src/utils/fileUtils.ts:22-24 | `("book.epub", "fb2")` gives `"book.fb2"` |
| `FileUtils.OutputNameExampleDoubleExtension` | src/utils/fileUtils.ts:22-24 | `("archive.tar.epub", "txt")` gives `"archive.tar.txt"` |
| `FormatSelector.CatalogContents` | src/components/FormatSelector.tsx:17-23 | the catalog has exactly five entries, in the order epub, mobi, pdf, txt, fb2 |
| `FormatSelector.CatalogWellFormed` | src/components/FormatSelector.tsx:18-22 | the identifiers are pairwise distinct; each extension is `"." + id`; each name is the upper-cased id |
| `FormatSelector.ClickEntry` | src/components/FormatSelector.tsx:31-34 | a click on a button reports a catalog identifier, the one whose extension the button shows |
| `FormatSelector.HighlightUnique` | src/components/FormatSelector.tsx:36 | at most one button is drawn as selected |
| `FormatSelector.HighlightExists` | src/components/FormatSelector.tsx:36 | some button is drawn as selected exactly when the selection is a catalog identifier |
| `App.DetectorMatchesCatalog` | src/utils/fileUtils.ts:4-10 | the detector's keys are exactly the catalog identifiers, and each maps to itself |
| `App.InitInv` | src/App.tsx:11-16 | the initial state has no file, source `epub`, target `fb2`, status `idle`, no error message and no artifact, and it satisfies the invariant |
| `App.OnSelectFile` | src/App.tsx:18-25 | selecting a file sets it, and sets the source format to the detected one when that is non-empty; nothing else changes |
| `App.OnClearFile` | src/App.tsx:118 | clearing removes the selected file and changes nothing else |
| `App.OnChooseFrom` | src/App.tsx:97-101 | the source chooser only ever sets a catalog identifier and changes nothing else |
| `App.OnChooseTo` | src/App.tsx:109-113 | the target chooser only ever sets a catalog identifier and changes nothing else |
| `App.StartConvert` | src/App.tsx:27-32 | with no file the handler does nothing; otherwise the status becomes `converting`, the error and artifact are cleared, and a job captures the current file and target format |
| `App.OnPressConvert` | src/App.tsx:129-131 | the button does nothing unless a file is selected and no conversion is running; when enabled, the status becomes `converting`, the error and artifact are cleared, the one job added captures the selected file and the current target, and the file and formats are unchanged |
| `App.OnReadComplete` | src/App.tsx:42-48 | a completed read sets status `success` and an artifact holding the captured file's bytes, typed `application/` + the captured target |
| `App.OnReadFailed` | src/App.tsx:50-52 | a failed read removes its job and changes nothing else |
| `App.OnDownload` | src/App.tsx:62-65 | a download happens exactly when both an artifact and a file are present; it hands over the artifact under `GetOutputFileName(file name, current target)` |
| `App.StepInv` | src/App.tsx:18-65 | every event preserves the invariant |
| `App.RunInv` | src/App.tsx:18-65 | every sequence of events preserves the invariant |
| `App.ReachableInv` | src/App.tsx:30-57 | in every reachable state the artifact is present exactly when the status is `success`, and the status is never `error` |
| `App.NoSecondStart` | src/App.tsx:131 | while converting, pressing Convert changes nothing, so at most one conversion is in flight |
| `App.ConvertingWithoutJobIsStuck` | src/App.tsx:50-58 | once the page is converting with no read left, no sequence of events changes the status or the artifact, and Convert stays disabled |
| `App.ReadFailureBlocks` | src/App.tsx:50-58 | a failed read of the only conversion leaves the page converting with no artifact and Convert disabled for good |
| `App.ConversionPreservesContent` | src/App.tsx:27-48 | the artifact is a copy of the bytes of the file selected when Convert was clicked, even if another file is selected while the read is in flight |
| `App.SelectionKeepsWorkflow` | src/App.tsx:18-25 | selecting or clearing a file never changes the status, the error message, the artifact, the target format or the jobs in flight |
| `App.ConvertWithoutFile` | src/App.tsx:28 | pressing Convert on the initial page leaves it unchanged |
| `App.ConvertScenario` | src/App.tsx:27-65 | select, choose a target, convert, complete: the source format is the detected one, the artifact is a copy typed for the target, and it is downloaded under the renamed file name |
| `App.StoryScenario` | src/App.tsx:18-65 | `story.TXT` is detected as `txt`; converted to `fb2`, it is downloaded as `story.fb2` with type `application/fb2` |
| `App.TargetChangedDuringConversion` | src/App.tsx:42-65 | after a target change during a conversion, the artifact is typed for the old target, but its download name is detected as the new one |

## Left out

- `formatFileSize` (src/utils/fileUtils.ts:15-20): it uses floating-point division and `toFixed` formatting.
- JsStrings.ToLowerCase: only ASCII `A`–`Z` are lowered, and other characters are kept. JavaScript's `toLowerCase` maps all of Unicode and can change a string's length. The five extensions are ASCII letters and digits, so this matters for detection only when the last piece of a name holds non-ASCII letters that JavaScript would lower to ASCII ones.
- JsStrings.ToUpperCase: only ASCII `a`–`z` are raised. It is not part of the helpers and serves only to state that detection ignores letter case; JavaScript's `toUpperCase` can map a non-ASCII letter to an ASCII one (dotless `ı` becomes `I`), so for such names upper-casing can change what is detected.
- Strings are sequences of Unicode scalar values, not of UTF-16 code units: positions count characters rather than code units, and a name holding a lone surrogate cannot be represented. The helpers' results are unaffected for every name that can be represented, since `.` and the five extensions are single code units.
- The 2000 ms delay and the scheduling of `FileReader`: a read's completion or failure is one discrete event, `ReadComplete` or `ReadFailed`.
- React's batching of state updates and the render between a file selection and the detection effect. The model applies the selection and the detection in one step.
- App.OnSelectFile: it runs detection on every selection. The effect in the code runs only when the selected `File` object changes, and file values here carry no object identity.
- The browser side of a download (`URL.createObjectURL`, creating and clicking a link, src/App.tsx:66-74): `OnDownload` returns the file name and blob it would hand over.
- The dropzone configuration and its advisory media-type filter (src/components/FileUpload.tsx): only its effect is modelled, which is to set or clear the selected file.
- `src/components/ConversionStatus.tsx`: it only renders text and icons for the status.
- Prototype keys in the object literal used as the extension map (for example an extension `constructor`). The map is modelled as a finite map with exactly five entries.
- The page layout, styling, and static list of features in src/App.tsx.
