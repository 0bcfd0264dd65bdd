/** The run of the unpacker as values: what each payload iteration of
    ExtractFiles does, how failures are counted, how the run is classified,
    and the whole pipeline from the scan to the final verdict. */
module Extraction {
  import opened Wrappers
  import opened LittleEndian
  import opened Container
  import opened InstallerScript

  /** Bio.CreateFile on the safe output path: a stream, null (the user chose to
      skip an existing file), or an exception. */
  datatype OpenResult = Skip | Created(path: string) | CreateFailed

  /** Everything outside the core the run depends on: the installer image, the
      LZMA codec, ToUtf8String, the output-file oracle for payload i with its
      name, and the path the installer script is saved to (None when
      EnsureFileDoesNotExist declined). */
  datatype Setting = Setting(
    image: seq<byte>,
    codec: Codec,
    utf8: seq<byte> -> string,
    createFile: (nat, string) -> OpenResult,
    scriptOutput: Option<string>)

  /** What iteration i of ExtractFiles did. SeekFailed: fileOffsets[i] does not
      exist or is negative, so setting Position throws. NoNextOffset: the
      output file was created but fileOffsets[i + 1] does not exist. Ran: the
      decoder was called with the given compressed-size limit. */
  datatype Attempt =
    | SeekFailed
    | Skipped
    | CreateError
    | NoNextOffset(path: string)
    | Ran(path: string, limit: int, status: DecodeStatus)

  /** The iteration ended in the catch block. */
  predicate Failed(a: Attempt) {
    !(a.Skipped? || (a.Ran? && a.status.Decompressed?))
  }

  /** Iteration i, whatever the iterations before it did: it seeks to
      offsets[i] first, so it depends on nothing they left behind. */
  function AttemptAt(env: Setting, names: seq<string>, offsets: seq<int>, i: nat): (r: Attempt)
    requires i < |names|
    ensures r.SeekFailed? <==> i >= |offsets| || offsets[i] < 0
    ensures r.Skipped? ==> env.createFile(i, names[i]).Skip?
    ensures r.CreateError? ==> env.createFile(i, names[i]).CreateFailed?
    ensures r.Ran? ==> i + 1 < |offsets| && 0 <= offsets[i] && env.createFile(i, names[i]) == Created(r.path) &&
                       r.limit == offsets[i + 1] - offsets[i] &&
                       r.status == Decompress(env.image, env.codec, offsets[i], r.limit).0
  {
    if i >= |offsets| || offsets[i] < 0 then SeekFailed
    else match env.createFile(i, names[i])
      case Skip => Skipped
      case CreateFailed => CreateError
      case Created(path) =>
        if i + 1 >= |offsets| then NoNextOffset(path)
        else
          var limit := offsets[i + 1] - offsets[i];
          Ran(path, limit, Decompress(env.image, env.codec, offsets[i], limit).0)
  }

  /** The stream position after iteration i, started at pos. */
  function CursorAfterAttempt(env: Setting, names: seq<string>, offsets: seq<int>, i: nat, pos: nat): (r: nat)
    requires i < |names|
    ensures i >= |offsets| || offsets[i] < 0 ==> r == pos
    ensures i < |offsets| && 0 <= offsets[i] ==> offsets[i] <= r
    ensures i < |offsets| && 0 <= offsets[i] <= |env.image| ==> r <= |env.image|
  {
    if i >= |offsets| || offsets[i] < 0 then pos
    else match env.createFile(i, names[i])
      case Created(_) =>
        if i + 1 >= |offsets| then offsets[i]
        else Decompress(env.image, env.codec, offsets[i], offsets[i + 1] - offsets[i]).1
      case _ => offsets[i]
  }

  /** One attempt per name, in order. */
  function Attempts(env: Setting, names: seq<string>, offsets: seq<int>): (r: seq<Attempt>)
    ensures |r| == |names|
  {
    seq(|names|, i requires 0 <= i < |names| => AttemptAt(env, names, offsets, i))
  }

  /** The stream position after the first n iterations. */
  function CursorAfter(env: Setting, names: seq<string>, offsets: seq<int>, n: nat, pos: nat): (r: nat)
    requires n <= |names|
    ensures (forall k :: 0 <= k < |offsets| ==> 0 <= offsets[k] <= |env.image|) ==>
              r <= |env.image| || r == pos
  {
    if n == 0 then pos
    else CursorAfterAttempt(env, names, offsets, n - 1, CursorAfter(env, names, offsets, n - 1, pos))
  }

  /** The value of `failed` after the iterations in log. */
  function FailureCount(log: seq<Attempt>): (r: nat)
    ensures r <= |log|
  {
    if log == [] then 0
    else FailureCount(log[..|log| - 1]) + (if Failed(log[|log| - 1]) then 1 else 0)
  }

  /** One more iteration adds one exactly when it failed. */
  lemma FailureCountAppend(log: seq<Attempt>, a: Attempt)
    ensures FailureCount(log + [a]) == FailureCount(log) + (if Failed(a) then 1 else 0)
  {
    assert (log + [a])[..|log|] == log;
  }

  /** The iterations that failed. */
  function FailedPositions(log: seq<Attempt>): set<nat> {
    set i: nat | i < |log| && Failed(log[i])
  }

  /** `failed` counts exactly the iterations that threw. */
  lemma {:induction false} FailureCountCountsFailures(log: seq<Attempt>)
    ensures FailureCount(log) == |FailedPositions(log)|
  {
    if log != [] {
      var n := |log| - 1;
      var init := log[..n];
      FailureCountCountsFailures(init);
      assert forall i :: 0 <= i < n ==> init[i] == log[i];
      if Failed(log[n]) {
        assert FailedPositions(log) == FailedPositions(init) + {n};
      } else {
        assert FailedPositions(log) == FailedPositions(init);
      }
    }
  }

  lemma {:induction false} NoFailures(log: seq<Attempt>)
    ensures FailureCount(log) == 0 <==> forall i :: 0 <= i < |log| ==> !Failed(log[i])
  {
    if log != [] {
      var n := |log| - 1;
      NoFailures(log[..n]);
      assert forall i :: 0 <= i < n ==> log[..n][i] == log[i];
    }
  }

  lemma {:induction false} AllFailures(log: seq<Attempt>)
    ensures FailureCount(log) == |log| <==> forall i :: 0 <= i < |log| ==> Failed(log[i])
  {
    if log != [] {
      var n := |log| - 1;
      AllFailures(log[..n]);
      assert forall i :: 0 <= i < n ==> log[..n][i] == log[i];
    }
  }

  datatype Verdict = NoMarkers | ScriptUnreadable | CountMismatch | AllOk | SomeFailed | AllFailed

  /** Bio.EXITCODE of the process. */
  datatype ExitCode = Success | InvalidInput | NotSupported

  function ExitCodeOf(v: Verdict): (c: ExitCode)
    ensures c == Success <==> v.AllOk? || v.SomeFailed?
    ensures c == NotSupported <==> v.AllFailed?
    ensures c == InvalidInput <==> v.NoMarkers? || v.ScriptUnreadable? || v.CountMismatch?
  {
    match v
    case NoMarkers | ScriptUnreadable | CountMismatch => InvalidInput
    case AllFailed => NotSupported
    case AllOk | SomeFailed => Success
  }

  /** The report after extraction: "All OK", the NOT_SUPPORTED error, or the warning. */
  function Classify(failed: nat, total: nat): (v: Verdict)
    ensures v.AllOk? || v.AllFailed? || v.SomeFailed?
  {
    if failed < 1 then AllOk
    else if failed == total then AllFailed
    else SomeFailed
  }

  /** The installer script as written next to the payload files. */
  datatype SavedFile = SavedFile(path: string, content: seq<byte>)

  /** How a run ended: the verdict, the offsets scanned, the names parsed, the
      script file, the payload iterations, `failed`, and the stream position. */
  datatype RunReport = RunReport(
    verdict: Verdict,
    offsets: seq<nat>,
    names: seq<string>,
    script: Option<SavedFile>,
    attempts: seq<Attempt>,
    failed: nat,
    cursor: nat)

  predicate Extracted(r: RunReport) {
    r.verdict.AllOk? || r.verdict.SomeFailed? || r.verdict.AllFailed?
  }

  /** The script segment's decode: from the last offset, bounded by the rest of the stream. */
  function ScriptDecode(env: Setting, offsets: seq<nat>): (r: (DecodeStatus, nat))
    requires |offsets| >= 1
    ensures r.0.HeaderTruncated? <==> offsets[|offsets| - 1] + HeaderSize > |env.image|
    ensures offsets[|offsets| - 1] <= |env.image| ==> r.1 <= |env.image|
  {
    var last := offsets[|offsets| - 1];
    Decompress(env.image, env.codec, last, |env.image| - last)
  }

  /** The script is decoded from the last marker in the file, with the whole
      rest of the stream (at least the marker itself) as its limit. */
  lemma ScriptSegmentIsLast(env: Setting)
    requires |Scan(env.image)| >= 1
    ensures var offsets := Scan(env.image);
      var last := offsets[|offsets| - 1];
      IsMarkerAt(env.image, last) && |env.image| - last >= |LzmaHeader| &&
      (forall o :: last < o ==> !IsMarkerAt(env.image, o)) &&
      ScriptDecode(env, offsets) == Decompress(env.image, env.codec, last, |env.image| - last)
  {
    var offsets := Scan(env.image);
    var last := offsets[|offsets| - 1];
    assert last in offsets;
    assert forall o :: o in offsets ==> o <= last;
  }

  /** The run of Main from the scan on, with the stream position at `start`. */
  function Pipeline(env: Setting, start: nat): (r: RunReport)
    ensures r.offsets == Scan(env.image)
    ensures Extracted(r) ==> |r.names| == |r.offsets| - 1 && |r.attempts| == |r.names| &&
                             r.failed == FailureCount(r.attempts)
    ensures !Extracted(r) ==> r.attempts == [] && r.failed == 0
  {
    var offsets := Scan(env.image);
    if |offsets| < 1 then RunReport(NoMarkers, offsets, [], None, [], 0, start)
    else
      var (status, cursor) := ScriptDecode(env, offsets);
      if !status.Decompressed? then RunReport(ScriptUnreadable, offsets, [], None, [], 0, cursor)
      else
        var names := GetFileList(env.utf8(status.bytes));
        var script := if env.scriptOutput.Some? then Some(SavedFile(env.scriptOutput.value, status.bytes)) else None;
        if |names| != |offsets| - 1 then RunReport(CountMismatch, offsets, names, script, [], 0, 0)
        else
          var attempts := Attempts(env, names, offsets);
          var failed := FailureCount(attempts);
          RunReport(Classify(failed, |names|), offsets, names, script, attempts, failed,
                    CursorAfter(env, names, offsets, |names|, 0))
  }

  /** After the count check every index the loop reads exists: no iteration
      fails on a missing offset, a skipped file is not decoded, and the
      decoder gets offsets[i + 1] - offsets[i] with the cursor at offsets[i]. */
  lemma {:induction false} ValidatedAttempt(env: Setting, names: seq<string>, offsets: seq<nat>, i: nat)
    requires |names| == |offsets| - 1 && i < |names|
    ensures var a := Attempts(env, names, offsets)[i];
      !a.SeekFailed? && !a.NoNextOffset? &&
      (a.Skipped? <==> env.createFile(i, names[i]).Skip?) &&
      (a.CreateError? <==> env.createFile(i, names[i]).CreateFailed?) &&
      (a.Ran? <==> env.createFile(i, names[i]).Created?) &&
      (a.Ran? ==> a.path == env.createFile(i, names[i]).path &&
                  a.limit == offsets[i + 1] as int - offsets[i] &&
                  a.status == Decompress(env.image, env.codec, offsets[i], a.limit).0)
  {
    assert Attempts(env, names, offsets)[i] == AttemptAt(env, names, offsets, i);
  }

  /** Extraction runs exactly when a marker was found, the script segment
      decoded, and the script names one file per payload segment. */
  lemma ExtractionPrecondition(env: Setting, start: nat)
    ensures var r := Pipeline(env, start);
      Extracted(r) <==>
        |Scan(env.image)| >= 1 &&
        ScriptDecode(env, Scan(env.image)).0.Decompressed? &&
        |GetFileList(env.utf8(ScriptDecode(env, Scan(env.image)).0.bytes))| == |Scan(env.image)| - 1
  {
  }

  /** Since the list always holds the two fixed names, an extracting run found
      at least three markers: two payloads and the script. */
  lemma ExtractionNeedsThreeMarkers(env: Setting, start: nat)
    requires Extracted(Pipeline(env, start))
    ensures |Pipeline(env, start).offsets| >= 3
    ensures |Pipeline(env, start).names| == |Pipeline(env, start).offsets| - 1
  {
  }

  /** A container with a single marker never reaches extraction. */
  lemma SingleMarkerRejected(env: Setting, start: nat)
    requires |Scan(env.image)| == 1
    ensures Pipeline(env, start).verdict in {NoMarkers, ScriptUnreadable, CountMismatch}
    ensures ExitCodeOf(Pipeline(env, start).verdict) == InvalidInput
  {
    if Extracted(Pipeline(env, start)) {
      ExtractionNeedsThreeMarkers(env, start);
    }
  }

  /** In an extracting run payload i is decoded from the i-th marker with the
      distance to the next marker, at least five bytes, as its limit. */
  lemma PayloadLimit(env: Setting, start: nat, i: nat)
    requires Extracted(Pipeline(env, start))
    requires i < |Pipeline(env, start).attempts|
    ensures var r := Pipeline(env, start);
      var a := r.attempts[i];
      i + 1 < |r.offsets| && IsMarkerAt(env.image, r.offsets[i]) &&
      (a.Ran? ==> a.limit == r.offsets[i + 1] as int - r.offsets[i] >= |LzmaHeader|)
  {
    var r := Pipeline(env, start);
    ValidatedAttempt(env, r.names, r.offsets, i);
    ScanGaps(env.image, i);
    assert r.offsets[i] in r.offsets;
  }

  /** The verdict depends on `failed` alone: none failed, all failed, or some. */
  lemma VerdictByFailures(env: Setting, start: nat)
    requires Extracted(Pipeline(env, start))
    ensures var r := Pipeline(env, start);
      r.failed == |FailedPositions(r.attempts)| <= |r.names| &&
      |r.attempts| == |r.names| >= 2 &&
      (r.verdict.AllOk? <==> forall i :: 0 <= i < |r.attempts| ==> !Failed(r.attempts[i])) &&
      (r.verdict.AllFailed? <==> forall i :: 0 <= i < |r.attempts| ==> Failed(r.attempts[i])) &&
      (r.verdict.SomeFailed? <==> 0 < r.failed < |r.names|)
  {
    var r := Pipeline(env, start);
    FailureCountCountsFailures(r.attempts);
    NoFailures(r.attempts);
    AllFailures(r.attempts);
  }

  /** A skipped output file counts neither as extracted nor as failed. */
  lemma SkipIsNotFailure(env: Setting, start: nat, i: nat)
    requires Extracted(Pipeline(env, start))
    requires i < |Pipeline(env, start).names|
    requires env.createFile(i, Pipeline(env, start).names[i]).Skip?
    ensures Pipeline(env, start).attempts[i] == Skipped
    ensures i !in FailedPositions(Pipeline(env, start).attempts)
  {
    var r := Pipeline(env, start);
    ValidatedAttempt(env, r.names, r.offsets, i);
  }

  /** One failing payload among the others leaves a partial success. */
  lemma OneFailureIsPartial(env: Setting, start: nat, j: nat)
    requires Extracted(Pipeline(env, start))
    requires j < |Pipeline(env, start).attempts|
    requires forall i :: 0 <= i < |Pipeline(env, start).attempts| ==>
               (Failed(Pipeline(env, start).attempts[i]) <==> i == j)
    ensures Pipeline(env, start).verdict == SomeFailed && Pipeline(env, start).failed == 1
    ensures ExitCodeOf(Pipeline(env, start).verdict) == Success
  {
    var r := Pipeline(env, start);
    ExtractedReport(env, start);
    OneFailure(r.attempts, j);
  }

  lemma OneFailure(log: seq<Attempt>, j: nat)
    requires j < |log|
    requires forall i :: 0 <= i < |log| ==> (Failed(log[i]) <==> i == j)
    ensures FailureCount(log) == 1
  {
    FailureCountCountsFailures(log);
    assert FailedPositions(log) == {j};
  }

  /** The report of an extracting run, field by field: the names paired with
      the payload offsets are those GetFileList reads from the script decoded
      from the last marker. */
  lemma ExtractedReport(env: Setting, start: nat)
    requires Extracted(Pipeline(env, start))
    ensures var r := Pipeline(env, start);
      |r.offsets| >= 1 && |r.names| == |r.offsets| - 1 && |r.names| >= 2 &&
      r.offsets == Scan(env.image) &&
      ScriptDecode(env, r.offsets).0.Decompressed? &&
      r.names == GetFileList(env.utf8(ScriptDecode(env, r.offsets).0.bytes)) &&
      r.attempts == Attempts(env, r.names, r.offsets) &&
      r.failed == FailureCount(r.attempts) &&
      r.verdict == Classify(r.failed, |r.names|)
  {
  }
}
