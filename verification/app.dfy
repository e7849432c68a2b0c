/**
  The converter page as a state machine.  The state is the page's six pieces
  of component state (selected file, source and target format, status, error
  message, converted artifact) together with the conversions still in flight:
  each click on Convert captures the selected file and the target format as
  they were at that moment, and its read completes (or fails) later as a
  separate event.  The "conversion" copies the file's bytes into a blob tagged
  `application/<target>`.
 */
module App {
  import opened Wrappers
  import opened FileUtils
  import FormatSelector

  type Byte = bv8

  /** A file chosen by the user: its name and its content. */
  datatype File = File(name: string, bytes: seq<Byte>)

  /** An in-memory binary object with a declared media type. */
  datatype Blob = Blob(bytes: seq<Byte>, mimeType: string)

  datatype Status = Idle | Converting | Success | Error

  /** A conversion in flight: the file and the target format its handler captured. */
  datatype Job = Job(file: File, target: string)

  datatype State = State(
    selectedFile: Option<File>,
    fromFormat: string,
    toFormat: string,
    status: Status,
    errorMessage: string,
    convertedFile: Option<Blob>,
    pending: seq<Job>)

  /** What a download hands to the browser: a file name and the artifact. */
  datatype Download = Download(fileName: string, blob: Blob)

  /** The user's actions and the completions of in-flight reads. */
  datatype Event =
    | SelectFile(file: File)
    | ClearFile
    | ChooseFrom(entry: nat)
    | ChooseTo(entry: nat)
    | PressConvert
    | ReadComplete(job: nat)
    | ReadFailed(job: nat)
    | PressDownload

  /** The state when the page is first shown. */
  const Init: State := State(None, "epub", "fb2", Idle, "", None, [])

  /** The media type given to the artifact of a conversion to `format`. */
  function MimeType(format: string): string {
    "application/" + format
  }

  // ---------------------------------------------------------------------------
  // Transitions
  // ---------------------------------------------------------------------------

  /** A file is selected; the detector then runs on its name and, when it
      recognises the extension, sets the source format. */
  function OnSelectFile(s: State, f: File): (r: State)
    ensures r.selectedFile == Some(f)
    ensures DetectFileFormat(f.name) != "" ==> r.fromFormat == DetectFileFormat(f.name)
    ensures DetectFileFormat(f.name) == "" ==> r.fromFormat == s.fromFormat
    ensures r.(selectedFile := s.selectedFile, fromFormat := s.fromFormat) == s
  {
    var detected := DetectFileFormat(f.name);
    var fromFormat := if detected != "" then detected else s.fromFormat;
    s.(selectedFile := Some(f), fromFormat := fromFormat)
  }

  /** The selection is cleared; nothing else changes. */
  function OnClearFile(s: State): (r: State)
    ensures r.selectedFile == None
    ensures r.(selectedFile := s.selectedFile) == s
  {
    s.(selectedFile := None)
  }

  /** A button of the source chooser is clicked. */
  function OnChooseFrom(s: State, entry: nat): (r: State)
    requires entry < |FormatSelector.Formats|
    ensures FormatSelector.IsCatalogId(r.fromFormat)
    ensures r.(fromFormat := s.fromFormat) == s
  {
    s.(fromFormat := FormatSelector.ClickEntry(entry))
  }

  /** A button of the target chooser is clicked. */
  function OnChooseTo(s: State, entry: nat): (r: State)
    requires entry < |FormatSelector.Formats|
    ensures FormatSelector.IsCatalogId(r.toFormat)
    ensures r.(toFormat := s.toFormat) == s
  {
    s.(toFormat := FormatSelector.ClickEntry(entry))
  }

  /** The convert handler.  Without a file it does nothing; with one it marks
      the page as converting, clears the error and the previous artifact, and
      starts a conversion of the file and target format selected right now. */
  function StartConvert(s: State): (r: State)
    ensures s.selectedFile.None? ==> r == s
    ensures s.selectedFile.Some? ==>
              && r.status == Converting
              && r.errorMessage == ""
              && r.convertedFile.None?
              && r.pending == s.pending + [Job(s.selectedFile.value, s.toFormat)]
              && r.selectedFile == s.selectedFile
              && r.fromFormat == s.fromFormat
              && r.toFormat == s.toFormat
  {
    match s.selectedFile
    case None => s
    case Some(file) =>
      s.(status := Converting, errorMessage := "", convertedFile := None,
         pending := s.pending + [Job(file, s.toFormat)])
  }

  /** Whether the Convert button can be clicked. */
  predicate ConvertEnabled(s: State) {
    s.selectedFile.Some? && s.status != Converting
  }

  /** A click on the Convert button: the handler runs only when the button is enabled. */
  function OnPressConvert(s: State): (r: State)
    ensures !ConvertEnabled(s) ==> r == s
    ensures ConvertEnabled(s) ==>
              && r.status == Converting
              && r.errorMessage == ""
              && r.convertedFile.None?
              && r.pending == s.pending + [Job(s.selectedFile.value, s.toFormat)]
              && r.selectedFile == s.selectedFile
              && r.fromFormat == s.fromFormat
              && r.toFormat == s.toFormat
    ensures s.status == Converting ==> r == s
    ensures s.selectedFile.None? ==> r == s
  {
    if ConvertEnabled(s) then StartConvert(s) else s
  }

  /** The jobs in flight with job `i` removed. */
  function Without(jobs: seq<Job>, i: nat): (r: seq<Job>)
    requires i < |jobs|
    ensures |r| == |jobs| - 1
    ensures forall j :: 0 <= j < |r| ==> r[j] == (if j < i then jobs[j] else jobs[j + 1])
  {
    jobs[..i] + jobs[i + 1..]
  }

  /** The read of job `i` completes: its captured file's bytes become the
      artifact, tagged with its captured target format, and the page shows
      success.  The current selection and target format play no part. */
  function OnReadComplete(s: State, i: nat): (r: State)
    ensures i >= |s.pending| ==> r == s
    ensures i < |s.pending| ==>
              && r.status == Success
              && r.convertedFile.Some?
              && r.convertedFile.value.bytes == s.pending[i].file.bytes
              && r.convertedFile.value.mimeType == MimeType(s.pending[i].target)
              && r.pending == Without(s.pending, i)
              && r.selectedFile == s.selectedFile
              && r.fromFormat == s.fromFormat
              && r.toFormat == s.toFormat
              && r.errorMessage == s.errorMessage
  {
    if i < |s.pending| then
      var job := s.pending[i];
      s.(convertedFile := Some(Blob(job.file.bytes, MimeType(job.target))),
         status := Success,
         pending := Without(s.pending, i))
    else s
  }

  /** The read of job `i` fails.  The error is thrown from the reader's
      callback, outside the handler's `try`, so it is never caught: the job is
      gone and nothing else changes. */
  function OnReadFailed(s: State, i: nat): (r: State)
    ensures i >= |s.pending| ==> r == s
    ensures i < |s.pending| ==> r.pending == Without(s.pending, i) && r.(pending := s.pending) == s
  {
    if i < |s.pending| then s.(pending := Without(s.pending, i)) else s
  }

  /** The download handler: only with both an artifact and a selected file,
      it hands the artifact to the browser under the selected file's name with
      its last extension replaced by the current target format. */
  function OnDownload(s: State): (out: Option<Download>)
    ensures out.Some? <==> s.convertedFile.Some? && s.selectedFile.Some?
    ensures out.Some? ==> out.value.blob == s.convertedFile.value
    ensures out.Some? ==>
              out.value.fileName == GetOutputFileName(s.selectedFile.value.name, s.toFormat)
  {
    if s.convertedFile.None? || s.selectedFile.None? then None
    else Some(Download(GetOutputFileName(s.selectedFile.value.name, s.toFormat), s.convertedFile.value))
  }

  /** The effect of one event on the state.  A click on a chooser entry that
      does not exist, or a completion of a job that is not in flight, changes
      nothing; a download leaves the state as it is. */
  function Step(s: State, e: Event): State {
    match e
    case SelectFile(f) => OnSelectFile(s, f)
    case ClearFile => OnClearFile(s)
    case ChooseFrom(k) => if k < |FormatSelector.Formats| then OnChooseFrom(s, k) else s
    case ChooseTo(k) => if k < |FormatSelector.Formats| then OnChooseTo(s, k) else s
    case PressConvert => OnPressConvert(s)
    case ReadComplete(i) => OnReadComplete(s, i)
    case ReadFailed(i) => OnReadFailed(s, i)
    case PressDownload => s
  }

  /** The state after a sequence of events. */
  function Run(s: State, events: seq<Event>): State
    decreases |events|
  {
    if |events| == 0 then s else Run(Step(s, events[0]), events[1..])
  }

  ghost predicate Reachable(s: State) {
    exists events :: Run(Init, events) == s
  }

  // ---------------------------------------------------------------------------
  // The invariant of reachable states
  // ---------------------------------------------------------------------------

  /** What holds of every state the page can reach:
      - both formats are catalog identifiers, and so is every captured target;
      - there is an artifact exactly when the status is success;
      - the error status and a non-empty error message never occur;
      - at most one conversion is in flight, and only while converting. */
  ghost predicate Inv(s: State) {
    && FormatSelector.IsCatalogId(s.fromFormat)
    && FormatSelector.IsCatalogId(s.toFormat)
    && (forall j :: 0 <= j < |s.pending| ==> FormatSelector.IsCatalogId(s.pending[j].target))
    && (s.convertedFile.Some? <==> s.status == Success)
    && s.status != Error
    && s.errorMessage == ""
    && |s.pending| <= 1
    && (|s.pending| == 1 ==> s.status == Converting)
  }

  /** The detector and the catalog agree: the detector's map sends each
      catalog identifier, and only those, to itself. */
  lemma DetectorMatchesCatalog()
    ensures FormatMap.Keys == FormatSelector.CatalogIds
    ensures forall k :: k in FormatMap ==> FormatMap[k] == k
  {
    FormatSelector.CatalogContents();
  }

  /** The initial state satisfies the invariant. */
  lemma InitInv()
    ensures Inv(Init)
    ensures Init.selectedFile.None? && Init.fromFormat == "epub" && Init.toFormat == "fb2"
    ensures Init.status == Idle && Init.errorMessage == "" && Init.convertedFile.None?
  {
    FormatSelector.CatalogContents();
  }

  /** Every event preserves the invariant. */
  lemma StepInv(s: State, e: Event)
    requires Inv(s)
    ensures Inv(Step(s, e))
  {
    match e
    case SelectFile(f) =>
      FormatSelector.CatalogContents();
      var d := DetectFileFormat(f.name);
      assert d == "" || FormatSelector.IsCatalogId(d);
    case PressConvert =>
      if ConvertEnabled(s) {
        assert |s.pending| == 0;
      }
    case ReadComplete(i) =>
    case ReadFailed(i) =>
    case _ =>
  }

  /** Runs of events preserve the invariant. */
  lemma {:induction false} RunInv(s: State, events: seq<Event>)
    requires Inv(s)
    ensures Inv(Run(s, events))
    decreases |events|
  {
    if |events| > 0 {
      StepInv(s, events[0]);
      RunInv(Step(s, events[0]), events[1..]);
    }
  }

  /** Every reachable state satisfies the invariant; in particular the status
      is never `error`, and the artifact is present exactly on success. */
  lemma ReachableInv(s: State)
    requires Reachable(s)
    ensures Inv(s)
    ensures s.status != Error
    ensures s.convertedFile.Some? <==> s.status == Success
  {
    var events :| Run(Init, events) == s;
    InitInv();
    RunInv(Init, events);
  }

  // ---------------------------------------------------------------------------
  // Properties of the workflow
  // ---------------------------------------------------------------------------

  /** While a conversion runs, a click on Convert starts nothing: the number
      of conversions in flight never exceeds one. */
  lemma NoSecondStart(s: State)
    requires Inv(s) && s.status == Converting
    ensures OnPressConvert(s) == s
    ensures |Step(s, PressConvert).pending| <= 1
  {
  }

  /** A failed read leaves the page converting with nothing in flight, and from
      there no sequence of events ever changes the status, starts a conversion
      or produces an artifact: the Convert button stays disabled. */
  lemma {:induction false} ConvertingWithoutJobIsStuck(s: State, events: seq<Event>)
    requires s.status == Converting && s.pending == []
    ensures Run(s, events).status == Converting
    ensures Run(s, events).pending == []
    ensures Run(s, events).convertedFile == s.convertedFile
    ensures !ConvertEnabled(Run(s, events))
    decreases |events|
  {
    if |events| > 0 {
      var t := Step(s, events[0]);
      assert t.status == Converting && t.pending == [] && t.convertedFile == s.convertedFile;
      ConvertingWithoutJobIsStuck(t, events[1..]);
    }
  }

  /** A read failure of the only conversion in flight blocks the page for good. */
  lemma ReadFailureBlocks(s: State, events: seq<Event>)
    requires Inv(s) && |s.pending| == 1
    ensures var t := Run(OnReadFailed(s, 0), events);
            t.status == Converting && t.convertedFile.None? && !ConvertEnabled(t)
  {
    ConvertingWithoutJobIsStuck(OnReadFailed(s, 0), events);
  }

  /** The artifact is a byte-for-byte copy of the file selected when Convert
      was clicked: selecting another file while the read is in flight does not
      change what is converted. */
  lemma ConversionPreservesContent(s: State, g: File)
    requires ConvertEnabled(s) && s.pending == []
    ensures var t := Step(Step(Step(s, PressConvert), SelectFile(g)), ReadComplete(0));
            && t.convertedFile.Some?
            && t.convertedFile.value.bytes == s.selectedFile.value.bytes
            && t.selectedFile == Some(g)
  {
    var s2 := Step(s, PressConvert);
    assert s2.pending == [Job(s.selectedFile.value, s.toFormat)];
  }

  /** Selecting and clearing files never touch the workflow: status, error,
      artifact, target format and the conversions in flight stay as they were. */
  lemma SelectionKeepsWorkflow(s: State, e: Event)
    requires e.SelectFile? || e.ClearFile?
    ensures var t := Step(s, e);
            t.status == s.status && t.errorMessage == s.errorMessage &&
            t.convertedFile == s.convertedFile && t.toFormat == s.toFormat &&
            t.pending == s.pending
  {
  }

  // ---------------------------------------------------------------------------
  // Scenarios
  // ---------------------------------------------------------------------------

  /** Pressing Convert with no file selected leaves the page as it is. */
  lemma ConvertWithoutFile()
    ensures Step(Init, PressConvert) == Init
  {
  }

  /** From a page with no conversion in flight: select a file, pick a target
      format, press Convert and let the read complete.  The source format is the
      detected one (when recognised), the artifact is an `application/<target>`
      copy of the file, and it is downloaded under the file's name with its
      last extension replaced by the target. */
  lemma {:induction false} ConvertScenario(s: State, f: File, k: nat)
    requires s.status != Converting && s.pending == [] && k < |FormatSelector.Formats|
    ensures var s1 := Step(s, SelectFile(f));
            var s2 := Step(s1, ChooseTo(k));
            var s3 := Step(s2, PressConvert);
            var s4 := Step(s3, ReadComplete(0));
            var target := FormatSelector.Formats[k].id;
            && (DetectFileFormat(f.name) != "" ==> s4.fromFormat == DetectFileFormat(f.name))
            && s3.status == Converting
            && s4.status == Success
            && s4.convertedFile == Some(Blob(f.bytes, MimeType(target)))
            && OnDownload(s4) == Some(Download(GetOutputFileName(f.name, target), Blob(f.bytes, MimeType(target))))
  {
    var s1 := OnSelectFile(s, f);
    var s2 := OnChooseTo(s1, k);
    var s3 := OnPressConvert(s2);
    assert s3.pending == [Job(f, FormatSelector.Formats[k].id)];
  }

  /** Selecting "story.TXT" picks TXT as source; converting to FB2 yields an
      `application/fb2` copy of the file, downloaded as "story.fb2". */
  lemma StoryScenario(f: File)
    requires f.name == "story.TXT"
    ensures var s1 := Step(Init, SelectFile(f));
            var s4 := Step(Step(Step(s1, ChooseTo(4)), PressConvert), ReadComplete(0));
            && s1.fromFormat == "txt"
            && OnDownload(s4) == Some(Download("story.fb2", Blob(f.bytes, MimeType("fb2"))))
  {
    assert Step(Init, SelectFile(f)).fromFormat == "txt" by {
      DetectExampleUpperCaseExtension();
    }
    assert GetOutputFileName(f.name, "fb2") == "story.fb2" by {
      assert "story.TXT" == "story" + "." + "TXT";
      OutputNameReplacesLastExtension("story", "TXT", "fb2");
    }
    assert FormatSelector.Formats[4].id == "fb2";
    ConvertScenario(Init, f, 4);
  }

  /** The target format is captured when Convert is clicked: choosing another
      target while the conversion runs gives an artifact typed for the old
      target, downloaded under a name the detector reads as the new one. */
  lemma TargetChangedDuringConversion(s: State, k: nat)
    requires ConvertEnabled(s) && s.pending == [] && k < |FormatSelector.Formats|
    ensures var s4 := Step(Step(Step(s, PressConvert), ChooseTo(k)), ReadComplete(0));
            var newTarget := FormatSelector.Formats[k].id;
            && s4.convertedFile == Some(Blob(s.selectedFile.value.bytes, MimeType(s.toFormat)))
            && OnDownload(s4).Some?
            && OnDownload(s4).value.fileName == GetOutputFileName(s.selectedFile.value.name, newTarget)
            && DetectFileFormat(OnDownload(s4).value.fileName) == newTarget
  {
    var f := s.selectedFile.value;
    var newTarget := FormatSelector.Formats[k].id;
    var s2 := Step(s, PressConvert);
    assert s2 == StartConvert(s);
    assert s2.pending == [Job(f, s.toFormat)];
    var s3 := Step(s2, ChooseTo(k));
    assert s3 == s2.(toFormat := newTarget);
    var s4 := Step(s3, ReadComplete(0));
    assert s4 == s3.(convertedFile := Some(Blob(f.bytes, MimeType(s.toFormat))), status := Success, pending := []);
    assert OnDownload(s4) == Some(Download(GetOutputFileName(f.name, newTarget), Blob(f.bytes, MimeType(s.toFormat))));
    assert newTarget in FormatMap by {
      FormatSelector.CatalogContents();
      DetectorMatchesCatalog();
    }
    DetectOutputName(f.name, newTarget);
  }
}
