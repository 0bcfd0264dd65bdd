/** The unpacker's shared state: one read cursor on the installer stream that
    DecompressLzma advances and that Main and ExtractFiles move by assigning
    Position. The methods follow Program's control flow statement by statement
    and are proved equal to the specifications in module Extraction. */
module Unpacker {
  import opened Wrappers
  import opened LittleEndian
  import opened Container
  import opened InstallerScript
  import opened Extraction

  class Spoondec {
    /** The opened installer together with the oracles the run consults. */
    const env: Setting
    /** fileStream.Position */
    var position: nat

    /** File.OpenRead: the cursor starts at the beginning. */
    constructor (env: Setting)
      ensures this.env == env && position == 0
    {
      this.env := env;
      position := 0;
    }

    /** Reads the properties block and the int64 size at the cursor, then lets
        the codec decode from just behind them. */
    method DecompressLzma(compressedSize: int) returns (status: DecodeStatus)
      modifies this`position
      ensures (status, position) == Decompress(env.image, env.codec, old(position), compressedSize)
    {
      var image := env.image;
      if position + HeaderSize > |image| {
        // Extract(5) and ReadInt64 run into the end of the stream: EndOfStreamException
        position := if position <= |image| then |image| else position;
        return HeaderTruncated;
      }
      var properties := image[position..position + 5];
      position := position + 5;
      var decompressedSize := Int64(image[position..position + 8]);
      position := position + 8;
      var result := env.codec(properties, image[position..], compressedSize, decompressedSize);
      position := position + result.consumed;
      status := if result.Produced? then Decompressed(result.output) else CodecFailed;
    }

    /** The payload loop. Each iteration seeks to its own offset, asks for the
        output file, and either skips it, or decodes up to the next offset;
        any exception is caught and counted. */
    method ExtractFiles(filePaths: seq<string>, fileOffsets: seq<int>) returns (failed: nat, log: seq<Attempt>)
      modifies this`position
      ensures log == Attempts(env, filePaths, fileOffsets)
      ensures failed == FailureCount(log) <= |filePaths|
      ensures position == CursorAfter(env, filePaths, fileOffsets, |filePaths|, old(position))
    {
      var totalFiles := |filePaths|;
      failed := 0;
      log := [];
      for i := 0 to totalFiles
        invariant log == Attempts(env, filePaths, fileOffsets)[..i]
        invariant failed == FailureCount(log)
        invariant position == CursorAfter(env, filePaths, fileOffsets, i, old(position))
      {
        var attempt := ExtractFile(filePaths, fileOffsets, i);
        if Failed(attempt) {
          // catch (Exception e)
          failed := failed + 1;
        }
        FailureCountAppend(log, attempt);
        log := log + [attempt];
        assert Attempts(env, filePaths, fileOffsets)[..i + 1] == Attempts(env, filePaths, fileOffsets)[..i] + [attempt];
      }
      assert Attempts(env, filePaths, fileOffsets)[..totalFiles] == Attempts(env, filePaths, fileOffsets);
    }

    /** The try block of iteration i: seek to fileOffsets[i], ask for the
        output file, skip it or decode up to fileOffsets[i + 1]. The attempt
        says where it stopped; the exceptions are those listed in Attempt. */
    method ExtractFile(filePaths: seq<string>, fileOffsets: seq<int>, i: nat) returns (attempt: Attempt)
      requires i < |filePaths|
      modifies this`position
      ensures attempt == AttemptAt(env, filePaths, fileOffsets, i)
      ensures position == CursorAfterAttempt(env, filePaths, fileOffsets, i, old(position))
    {
      var filePath := filePaths[i];
      if i >= |fileOffsets| || fileOffsets[i] < 0 {
        // reading fileOffsets[i] or setting Position throws
        return SeekFailed;
      }
      position := fileOffsets[i];
      var outputStream := env.createFile(i, filePath);
      match outputStream
      case Skip =>
        attempt := Skipped;
      case CreateFailed =>
        attempt := CreateError;
      case Created(path) =>
        if i + 1 >= |fileOffsets| {
          // fileOffsets[i + 1] throws once the file exists
          attempt := NoNextOffset(path);
        } else {
          var compressedSize := fileOffsets[i + 1] - position;
          var status := DecompressLzma(compressedSize);
          attempt := Ran(path, compressedSize, status);
        }
    }

    /** Main after the command line: scan, decode the script from the last
        offset, save it, rewind, check the name count, extract, classify.
        Every Bio.Error ends the run with its verdict. */
    method Run() returns (report: RunReport)
      modifies this`position
      ensures report == Pipeline(env, old(position))
      ensures position == report.cursor
    {
      var fileOffsets := Scan(env.image);
      if |fileOffsets| < 1 {
        return RunReport(NoMarkers, fileOffsets, [], None, [], 0, position);
      }

      var installerScriptOffset := fileOffsets[|fileOffsets| - 1];
      position := installerScriptOffset;
      var installerScript := DecompressLzma(|env.image| - position);
      assert (installerScript, position) == ScriptDecode(env, fileOffsets);
      if !installerScript.Decompressed? {
        return RunReport(ScriptUnreadable, fileOffsets, [], None, [], 0, position);
      }

      var filePaths := GetFileList(env.utf8(installerScript.bytes));
      var script: Option<SavedFile> := None;
      if env.scriptOutput.Some? {
        script := Some(SavedFile(env.scriptOutput.value, installerScript.bytes));
      }

      position := 0;
      if |filePaths| != |fileOffsets| - 1 {
        return RunReport(CountMismatch, fileOffsets, filePaths, script, [], 0, position);
      }

      var failed, log := ExtractFiles(filePaths, fileOffsets);
      ghost var expected := Pipeline(env, old(position));
      assert expected.attempts == log && expected.failed == failed;
      var verdict: Verdict;
      if failed < 1 {
        verdict := AllOk;
      } else if failed == |filePaths| {
        verdict := AllFailed;
      } else {
        verdict := SomeFailed;
      }
      report := RunReport(verdict, fileOffsets, filePaths, script, log, failed, position);
    }
  }
}
