# spoondec, modelled in Dafny

spoondec unpacks Spoon Installers. Such an installer is one binary image that holds
LZMA segments back to back and has no index. The unpacker finds the segments by
scanning for the 5-byte LZMA properties block `5D 00 00 80 00`. It decodes the last
segment first, because that segment is the installer script. From the script it takes
one destination name per payload segment: two fixed names (`#SetupImage.bmp`,
`#License.txt`), then group 1 of each `[CopyFile] … <Destination>\<path>` match. It
checks that the number of names is one less than the number of segments. Then it
decodes every payload segment in order. The distance to the next marker is passed as
the compressed-size limit. It counts the segments that fail and reports "All OK", a
NOT_SUPPORTED error when all of them failed, or a warning.

The model has six modules:

- `Wrappers`: the `Option` datatype.
- `LittleEndian`: bytes (`byte`, a newtype over 0..255), little-endian unsigned values, and the signed 64-bit value `BinaryReader.ReadInt64` reads. Encoders and round-trip lemmas in both directions.
- `Container`: the marker, `Scan` (the result of `FindAll`), the 13-byte segment header, the LZMA codec as an oracle, and `Decompress`. `Decompress` is what one `DecompressLzma` call does to the status and to the stream cursor.
- `InstallerScript`: the regular expression of `GetFileList`, written as the search the .NET engine performs, and `GetFileList` itself.
- `Extraction`: the run as values. It has the outcome of each payload iteration, the failure counter, the classification and `Pipeline`, which is `Main` from the scan on. The lemmas here state the theorems about the run.
- `Unpacker`: class `Spoondec`. Its mutable field `position` is `fileStream.Position`. Its methods `DecompressLzma`, `ExtractFiles` and `Run` follow the source statement by statement. Each is proved equal to its specification in `Extraction` and `Container`.

`Run` stops at every `Bio.Error`, and the verdict records which one it was.
Everything outside the core is a field of `Extraction.Setting`:

- the installer image;
- the codec;
- `ToUtf8String`;
- the output-file oracle `createFile`, which stands for `GetSafeOutputPath` + `CreateFile`. For each payload index and name it answers skip, a created path, or an exception;
- the path the script is saved to.

## Model

| member | source | states |
|---|---|---|
| LittleEndian.Unsigned | spoondec/Program.cs:112 | the value of n little-endian bytes is below 256^n |
| LittleEndian.UnsignedOfEncode | spoondec/Program.cs:112 | decoding the k-byte little-endian encoding of n gives n back |
| LittleEndian.EncodeOfUnsigned | spoondec/Program.cs:112 | encoding the value of a byte string with its own length gives the string back |
| LittleEndian.Int64 | spoondec/Program.cs:112 | ReadInt64 yields a value in [-2^63, 2^63), and it is negative exactly when the top bit of the eighth byte is set |
| LittleEndian.Int64OfEncode | spoondec/Program.cs:112 | reading back the eight bytes written for an int64 gives that int64 |
| LittleEndian.EncodeOfInt64 | spoondec/Program.cs:112 | every eight-byte string is the encoding of the int64 read from it |
| Container.MarkersDoNotOverlap | spoondec/Program.cs:14 | two occurrences of LZMA_HEADER start at least five bytes apart (the marker cannot overlap itself) |
| Container.ScanFrom | spoondec/Program.cs:31 | the offsets returned are exactly the marker occurrences at or after the start, strictly ascending |
| Container.Scan | spoondec/Program.cs:31 | FindAll's result: an offset is listed iff LZMA_HEADER occurs there; the list is strictly ascending |
| Container.ScanGaps | spoondec/Program.cs:31 | neighbouring offsets differ by at least the marker length, so every segment's size difference is positive |
| Container.ReadHeader | spoondec/Program.cs:111-112 | the header can be read iff 13 bytes remain from the offset; then it has a 5-byte properties block and an int64 size |
| Container.ReadEncodedHeader | spoondec/Program.cs:111-112 | reading the 13 encoded header bytes at any position gives that header back |
| Container.EncodeReadHeader | spoondec/Program.cs:111-112 | the header read at o re-encodes to exactly bytes o..o+13 |
| Container.HeaderAtMarker | spoondec/Program.cs:14 | at a marker offset the properties read are LZMA_HEADER and the size is the little-endian int64 at o+5 |
| Container.Decompress | spoondec/Program.cs:110-118 | a segment fails in the header exactly when fewer than 13 bytes remain; a success yields the declared size in bytes when that size is non-negative (this clause is the codec oracle's assumption, not something the program checks); the cursor ends at or after o+13 when the header was read, and never past the end of the stream, or past where it started |
| Container.DecompressAtMarker | spoondec/Program.cs:110-116 | at a marker, the codec receives LZMA_HEADER, the int64 at o+5 and the stream from o+13 on, with the caller's limit unchanged, and the cursor ends at o+13 plus what the codec read |
| InstallerScript.LineEnd | spoondec/Program.cs:75 | where `(.+)` stops: the first line feed at or after i, or the end of the text |
| InstallerScript.FirstDestination | spoondec/Program.cs:75 | where the lazy `(?s:.*?)` stops: the nearest `<Destination>\` followed by a non-line-feed character, or none if none exists |
| InstallerScript.NextMatch | spoondec/Program.cs:75-76 | the leftmost start at or after p where the whole pattern matches, with its destination and end; None iff the pattern matches nowhere from p |
| InstallerScript.Matches | spoondec/Program.cs:76 | every match found is a real match starting at or after the search position |
| InstallerScript.MatchesComplete | spoondec/Program.cs:76 | every position from the search start where the pattern matches lies inside one of the returned matches: no match is missed |
| InstallerScript.MatchesFindAny | spoondec/Program.cs:76 | Matches is empty iff the pattern matches at no position |
| InstallerScript.MatchesInDocumentOrder | spoondec/Program.cs:76 | matches come in document order and do not overlap |
| InstallerScript.Capture | spoondec/Program.cs:79 | group 1 is the text between `<Destination>\` and the end of the match: the text is the part before it, the capture, and the part after |
| InstallerScript.CaptureIsLine | spoondec/Program.cs:75 | group 1 is non-empty and contains no line feed |
| InstallerScript.GetFileList | spoondec/Program.cs:74-82 | the list has 2 + (number of matches) names, at least two, starting with `#SetupImage.bmp`, `#License.txt` |
| InstallerScript.FileListCapture | spoondec/Program.cs:78-79 | name k+2 is group 1 of the k-th match, a non-empty single line |
| InstallerScript.FileListLength | spoondec/Program.cs:78-79 | a script without any match yields exactly the two fixed names; any match adds names |
| Extraction.AttemptAt | spoondec/Program.cs:89-104 | an iteration fails on the seek exactly when offsets[i] is missing or negative; it is skipped only when the output stream is null; a decode gets limit offsets[i+1] - offsets[i] and the status Decompress gives at offsets[i] |
| Extraction.CursorAfterAttempt | spoondec/Program.cs:93-98 | a failed seek leaves the cursor unchanged; otherwise the iteration leaves it at or after offsets[i], and within the stream when the offset is |
| Extraction.CursorAfter | spoondec/Program.cs:88-105 | with every offset inside the stream, the loop leaves the cursor within the stream or where it started |
| Extraction.Attempts | spoondec/Program.cs:88 | the loop makes exactly one attempt per name, in order; attempt i is a function of i alone, so it does not depend on what earlier iterations did |
| Extraction.FailureCount | spoondec/Program.cs:86-103 | the failure counter never exceeds the number of iterations |
| Extraction.FailureCountAppend | spoondec/Program.cs:101-103 | one more iteration raises the counter by exactly one if it threw and leaves it unchanged otherwise |
| Extraction.FailureCountCountsFailures | spoondec/Program.cs:86-107 | the counter equals the number of iterations that ended in the catch block |
| Extraction.NoFailures | spoondec/Program.cs:61 | the counter is 0 iff no iteration failed |
| Extraction.AllFailures | spoondec/Program.cs:64 | the counter equals the number of iterations iff every iteration failed |
| Extraction.ExitCodeOf | spoondec/Program.cs:32-65 | the run exits with success iff it extracted with fewer failures than names, with NOT_SUPPORTED iff every payload failed, and with INVALID_INPUT on the three format errors |
| Extraction.Classify | spoondec/Program.cs:61-69 | after extraction the run ends in one of "All OK", NOT_SUPPORTED or the warning |
| Extraction.ValidatedAttempt | spoondec/Program.cs:88-98 | once names = offsets - 1, no iteration fails on a missing offset; a skipped file is not decoded; a created file is decoded from offsets[i] with limit offsets[i+1] - offsets[i] |
| Extraction.ScriptDecode | spoondec/Program.cs:35-42 | the script decode fails in the header iff fewer than 13 bytes follow the last offset, and leaves the cursor within the stream when the last offset is |
| Extraction.Pipeline | spoondec/Program.cs:28-69 | the run's offsets are the scan; an extracting run has one attempt per name, names = offsets - 1 and `failed` the failure count; any other run made no attempt and counts nothing |
| Extraction.ScriptSegmentIsLast | spoondec/Program.cs:35-42 | the script is decoded from the last marker in the file (no marker follows it) with limit Length - lastOffset |
| Extraction.ExtractionPrecondition | spoondec/Program.cs:32-58 | extraction runs iff a marker was found, the script decoded, and the name count is the marker count minus one |
| Extraction.ExtractedReport | spoondec/Program.cs:35-69 | an extracting run decoded the script from the last marker, its names are GetFileList of that script's text, and its attempts, counter and verdict are those of ExtractFiles on the scanned offsets and those names |
| Extraction.ExtractionNeedsThreeMarkers | spoondec/Program.cs:58 | an extracting run found at least three markers, because the list always holds at least two names |
| Extraction.SingleMarkerRejected | spoondec/Program.cs:32-58 | with a single marker the run always ends in an INVALID_INPUT error |
| Extraction.PayloadLimit | spoondec/Program.cs:93-98 | in an extracting run payload i starts at a marker, i+1 is a valid offset index, and a decoded payload's limit is the distance to the next marker (at least 5) |
| Extraction.VerdictByFailures | spoondec/Program.cs:61-69 | the verdict depends only on the counter: "All OK" iff nothing failed, NOT_SUPPORTED iff everything failed, the warning iff some but not all failed; and 0 <= failed <= number of names |
| Extraction.SkipIsNotFailure | spoondec/Program.cs:95-96 | a file whose output stream is null is skipped and not counted as a failure |
| Extraction.OneFailureIsPartial | spoondec/Program.cs:88-108 | if exactly one payload fails, the counter is 1 and the run ends with the warning and a success exit code |
| Unpacker.Spoondec.constructor | spoondec/Program.cs:29 | the stream opens with its cursor at 0 |
| Unpacker.Spoondec.DecompressLzma | spoondec/Program.cs:110-118 | the status and the new cursor are those of Decompress at the old cursor |
| Unpacker.Spoondec.ExtractFiles | spoondec/Program.cs:84-108 | the iterations are Attempts, `failed` is their failure count (at most the number of names), and the cursor is where the last iteration left it |
| Unpacker.Spoondec.ExtractFile | spoondec/Program.cs:89-99 | one iteration's try block: its outcome is AttemptAt and it leaves the cursor where CursorAfterAttempt says |
| Unpacker.Spoondec.Run | spoondec/Program.cs:28-69 | the run ends with the report of Pipeline and the cursor it records |

## Left out

- The LZMA bit-stream decoder (`SetDecoderProperties`, `Code`) is an oracle of type `Container.Codec`. The model assumes only that it reads no more than the rest of the stream and that a success yields the declared size when the size is non-negative. The real decoder may also stop normally at an LZMA end marker after fewer bytes than declared; the model does not cover that case. The decoder object shared between calls is not modelled; each call stands alone. `Code` also writes into the output file, and the `using` block flushes it on disposal; an I/O error there shows in the model only as a codec failure on that segment's input.
- `FindAll` is BioLib code and is not part of this model. `Scan` gives its result as the list of all marker occurrences. Because the marker cannot overlap itself, that list is the same for an overlapping and a non-overlapping search. The model assumes the scan leaves the cursor where it was.
- `ToUtf8String` is an oracle (`Setting.utf8`). The regular expression is modelled as the search it performs on the decoded text. .NET options, culture and timeouts play no part in this pattern.
- `Bio.GetSafeOutputPath`, `Bio.EnsureFileDoesNotExist` and `Bio.CreateFile` are user interface and file system: an oracle that answers skip, a created path, or an exception. The oracle is asked once per payload index whose seek succeeds (every index, in an extracting run). The script file is represented by the path the oracle gave for it. A failing `WriteToFile` of the script is uncaught in the source and is not modelled.
- What a failed codec call leaves in its output file is not modelled. The attempt records the path and the failure.
- `Progress`, `Cout`, `Warn`, `Debug`, `Pause` and `Header` only print. `ParseCommandLine` is command-line plumbing over `File.Exists` and `Path`. Neither is modelled.
- `Bio.Error` ends the process. Here it ends `Run` with a verdict, and `ExitCodeOf` maps that verdict to the exit code.
- Container.Decompress: when the header cannot be read, the model puts the cursor at the end of the stream (or leaves it where it was, if it is already past the end). Where BinaryReader and `Extract` leave it exactly is not modelled. Nothing in the run reads the cursor afterwards, because every decode is preceded by a seek or the run stops.
- Offsets are `long` and the counter is `int` in the source. The model uses unbounded integers. Offsets are bounded by the image length, and the counter by the number of names, so no overflow is possible.
- Three behaviours of the code that a reader might not expect; the model follows the code:
  - The limit passed to the codec is the full distance between markers. The 13 header bytes already read are not subtracted.
  - A skipped file is not decoded at all. Alignment holds only because the next iteration seeks.
  - A container with a single marker is rejected by the count check, because the list always holds two names. It never reports "All OK" with zero payloads.
