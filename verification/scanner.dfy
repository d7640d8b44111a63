/** The submission state machine of the app: the state shared by the drop
    handler, the file reader's callbacks and `processImage`, the transitions a
    dropped file drives it through, and the history the page lists as previous
    scans. */
module Scanner {
  import opened Wrappers
  import opened JsText
  import opened ChatStream
  import opened DataUrl

  /** One completed scan. `id` is the clock reading, `timestamp` its locale
      rendering, and `image` the object URL made for the file. */
  datatype ScanResult = ScanResult(id: int, text: string, timestamp: string, image: string, filename: string)

  /** The app's state: scans newest first, the loading flag, the scan on show,
      and the error message on show (`None` for `null`). */
  datatype AppState = AppState(
    history: seq<ScanResult>,
    loading: bool,
    currentResult: Option<ScanResult>,
    error: Option<string>)

  /** The state the page starts in. */
  const Initial: AppState := AppState([], false, None, None)

  /** A dropped or selected file; only its name is read by the pipeline. */
  datatype ImageFile = ImageFile(name: string)

  /** How `readAsDataURL` ended: its error callback, or its load callback with
      the data URL. */
  datatype FileRead = ReadFailed | Loaded(dataUrl: string)

  /** The values taken from the environment once a scan succeeds: the clock,
      its locale rendering and the object URL for the file. */
  datatype Stamp = Stamp(id: int, timestamp: string, image: string)

  const ReadFileError: string := "Failed to read the image file"

  /** The message of the TypeError thrown when the data URL has no comma and the
      missing payload's length is read (V8's wording). */
  const MissingPayloadError: string := "Cannot read properties of undefined (reading 'length')"

  /** The start of `onDrop`: with no file nothing happens; otherwise loading
      starts and any error on show is cleared. */
  function Begin(s: AppState, files: seq<ImageFile>): (s': AppState)
    ensures files == [] ==> s' == s
    ensures files != [] ==> s'.loading && s'.error == None
    ensures s'.history == s.history && s'.currentResult == s.currentResult
  {
    if files == [] then s else s.(loading := true, error := None)
  }

  /** From the file reader's outcome to the extracted text or the message of the
      error that ends the submission. */
  function Recognize(read: FileRead, reply: Reply, parse: Parser): (r: Result<string, string>)
    ensures read.ReadFailed? ==> r == Failure(ReadFileError)
    ensures read.Loaded? && ',' !in read.dataUrl ==> r == Failure(MissingPayloadError)
    ensures read.Loaded? && ',' in read.dataUrl ==> r == ProcessImage(reply, parse)
    ensures r.Success? <==> read.Loaded? && ',' in read.dataUrl && ProcessImage(reply, parse).Success?
    ensures r.Success? ==>
              && reply.Received? && IsOk(reply.response)
              && r.value == StreamText(reply.response.chunks, parse)
              && !IsBlank(r.value)
  {
    match read
    case ReadFailed => Failure(ReadFileError)
    case Loaded(dataUrl) =>
      match Payload(dataUrl)
      case None => Failure(MissingPayloadError)
      case Some(_) => ProcessImage(reply, parse)
  }

  /** The scan a successful submission records. */
  function NewResult(text: string, stamp: Stamp, file: ImageFile): ScanResult {
    ScanResult(stamp.id, text, stamp.timestamp, stamp.image, file.name)
  }

  /** The end of a submission: success shows the new scan and puts it at the
      front of the history; failure shows the error. Loading stops either way. */
  function Settle(s: AppState, outcome: Result<string, string>, stamp: Stamp, file: ImageFile): AppState {
    match outcome
    case Success(text) =>
      var result := NewResult(text, stamp, file);
      s.(currentResult := Some(result), history := [result] + s.history, loading := false, error := None)
    case Failure(message) =>
      s.(error := Some(message), loading := false)
  }

  /** One whole submission: `onDrop`, the file reader's callback and
      `processImage`, run to completion. Only the first file is used. */
  function Submit(s: AppState, files: seq<ImageFile>, read: FileRead, reply: Reply, parse: Parser, stamp: Stamp): (s': AppState)
    ensures files == [] ==> s' == s
    ensures files != [] ==> !s'.loading
    ensures files != [] && Recognize(read, reply, parse).Success? ==>
              var result := ScanResult(stamp.id, Recognize(read, reply, parse).value, stamp.timestamp, stamp.image, files[0].name);
              && s'.currentResult == Some(result)
              && s'.history == [result] + s.history
              && s'.error == None
    ensures files != [] && Recognize(read, reply, parse).Failure? ==>
              && s'.history == s.history
              && s'.currentResult == s.currentResult
              && s'.error == Some(Recognize(read, reply, parse).error)
  {
    if files == [] then s
    else Settle(Begin(s, files), Recognize(read, reply, parse), stamp, files[0])
  }

  /** The scan on show is the newest in the history, and there is one exactly
      when the history is not empty. */
  ghost predicate Consistent(s: AppState) {
    && (s.currentResult.Some? <==> s.history != [])
    && (s.history != [] ==> s.currentResult == Some(s.history[0]))
  }

  lemma InitialConsistent()
    ensures Consistent(Initial) && !Initial.loading
  {
  }

  /** Every submission keeps the scan on show in step with the history. */
  lemma SubmitKeepsConsistent(s: AppState, files: seq<ImageFile>, read: FileRead, reply: Reply, parse: Parser, stamp: Stamp)
    requires Consistent(s)
    ensures Consistent(Submit(s, files, read, reply, parse, stamp))
  {
  }

  /** The inputs of one submission. */
  datatype Submission = Submission(files: seq<ImageFile>, read: FileRead, reply: Reply, parse: Parser, stamp: Stamp)

  function Apply(s: AppState, sub: Submission): AppState {
    Submit(s, sub.files, sub.read, sub.reply, sub.parse, sub.stamp)
  }

  predicate Succeeds(sub: Submission) {
    sub.files != [] && Recognize(sub.read, sub.reply, sub.parse).Success?
  }

  /** Submissions one after another, none overlapping another. */
  function Run(s: AppState, subs: seq<Submission>): AppState
    decreases |subs|
  {
    if subs == [] then s else Run(Apply(s, subs[0]), subs[1..])
  }

  /** The scans the successful submissions among `subs` record, newest first. */
  function NewResults(subs: seq<Submission>): seq<ScanResult>
    decreases |subs|
  {
    if subs == [] then []
    else
      var sub := subs[0];
      NewResults(subs[1..])
        + (if Succeeds(sub) then [NewResult(Recognize(sub.read, sub.reply, sub.parse).value, sub.stamp, sub.files[0])] else [])
  }

  /** The history is an append-only ledger: after any run of submissions it is
      the new scans, newest first, in front of the old history, which is left
      as it was. */
  lemma {:induction false} RunExtendsHistory(s: AppState, subs: seq<Submission>)
    ensures Run(s, subs).history == NewResults(subs) + s.history
    decreases |subs|
  {
    if subs != [] {
      var sub := subs[0];
      var s1 := Apply(s, sub);
      RunExtendsHistory(s1, subs[1..]);
      var added := if Succeeds(sub) then [NewResult(Recognize(sub.read, sub.reply, sub.parse).value, sub.stamp, sub.files[0])] else [];
      assert s1.history == added + s.history;
      assert NewResults(subs) == NewResults(subs[1..]) + added;
      AppendAssoc(NewResults(subs[1..]), added, s.history);
    }
  }

  /** Over any run of submissions the scan on show stays the newest one, and a
      run that starts at rest ends at rest. */
  lemma {:induction false} RunKeepsConsistent(s: AppState, subs: seq<Submission>)
    requires Consistent(s)
    ensures Consistent(Run(s, subs))
    ensures !s.loading ==> !Run(s, subs).loading
    decreases |subs|
  {
    if subs != [] {
      var sub := subs[0];
      SubmitKeepsConsistent(s, sub.files, sub.read, sub.reply, sub.parse, sub.stamp);
      RunKeepsConsistent(Apply(s, sub), subs[1..]);
    }
  }

  /** A failed submission of any kind leaves the history and the scan on show
      exactly as they were. */
  lemma {:induction false} FailedRunKeepsHistory(s: AppState, subs: seq<Submission>)
    requires forall k :: 0 <= k < |subs| ==> !Succeeds(subs[k])
    ensures Run(s, subs).history == s.history
    ensures Run(s, subs).currentResult == s.currentResult
    decreases |subs|
  {
    if subs != [] {
      assert forall k :: 0 <= k < |subs[1..]| ==> subs[1..][k] == subs[k + 1];
      FailedRunKeepsHistory(Apply(s, subs[0]), subs[1..]);
    }
  }

  /** The "Previous Scans" list: every scan but the newest, shown only when the
      history holds more than one scan. */
  function PreviousScans(history: seq<ScanResult>): (shown: Option<seq<ScanResult>>)
    ensures shown.Some? <==> |history| > 1
    ensures shown.Some? ==> [history[0]] + shown.value == history
  {
    if |history| > 1 then Some(history[1..]) else None
  }

  /** After a successful submission, the previous scans are exactly the history
      as it was before, listed when that history was not empty. */
  lemma PreviousScansAfterSuccess(s: AppState, text: string, stamp: Stamp, file: ImageFile)
    ensures PreviousScans(Settle(s, Success(text), stamp, file).history)
         == (if s.history == [] then None else Some(s.history))
  {
    var s' := Settle(s, Success(text), stamp, file);
    assert s'.history[1..] == s.history;
  }

  /** The current-result panel: the scan on show is rendered only while no
      submission is loading. */
  function OnShow(s: AppState): Option<ScanResult> {
    if s.currentResult.Some? && !s.loading then s.currentResult else None
  }

  /** At rest, in a consistent state, the page shows every scan exactly once:
      the rendered scan followed by the previous scans is the whole history.
      While a submission is loading the newest scan is rendered nowhere. */
  lemma ScreenShowsWholeHistory(s: AppState)
    requires Consistent(s) && |s.history| >= 1
    ensures OnShow(s).Some? <==> !s.loading
    ensures !s.loading && PreviousScans(s.history).Some? ==>
              [OnShow(s).value] + PreviousScans(s.history).value == s.history
    ensures !s.loading && PreviousScans(s.history) == None ==> [OnShow(s).value] == s.history
  {
  }
}
