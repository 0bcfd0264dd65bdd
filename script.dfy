/** GetFileList: the destination names an installer script lists. The .NET
    pattern `\[CopyFile\](?s:.*?)<Destination>\\(.+)` is modelled by the scan it
    performs: from each candidate start, the literal `[CopyFile]`, then the
    nearest `<Destination>\` after it that is followed by at least one
    character other than a line feed, then the capture up to the end of that
    line; the next search resumes where the match ended. */
module InstallerScript {
  import opened Wrappers

  const CopyFileTag: string := "[CopyFile]"
  const DestinationTag: string := "<Destination>\\"

  /** The two names GetFileList puts first; the script does not list them. */
  const SetupImageName: string := "#SetupImage.bmp"
  const LicenseName: string := "#License.txt"

  predicate HasAt(s: string, i: int, pat: string) {
    0 <= i && i + |pat| <= |s| && s[i..i + |pat|] == pat
  }

  /** `<Destination>\\(.+)` matches at j: the tag, then a character of the line. */
  predicate DestinationAt(s: string, j: int) {
    HasAt(s, j, DestinationTag) && j + |DestinationTag| < |s| && s[j + |DestinationTag|] != '\n'
  }

  /** Where the greedy `.+` stops: the next line feed at or after i, or the end. */
  function LineEnd(s: string, i: nat): (r: nat)
    requires i <= |s|
    decreases |s| - i
    ensures i <= r <= |s| && (r == |s| || s[r] == '\n')
    ensures forall k :: i <= k < r ==> s[k] != '\n'
  {
    if i == |s| || s[i] == '\n' then i else LineEnd(s, i + 1)
  }

  /** Where the lazy `(?s:.*?)` stops: the nearest destination at or after j. */
  function FirstDestination(s: string, j: nat): (r: Option<nat>)
    decreases |s| - j
    ensures r.Some? ==> j <= r.value && DestinationAt(s, r.value)
    ensures r.Some? ==> forall k :: j <= k < r.value ==> !DestinationAt(s, k)
    ensures r.None? ==> forall k :: j <= k ==> !DestinationAt(s, k)
  {
    if j + |DestinationTag| >= |s| then None
    else if DestinationAt(s, j) then Some(j)
    else FirstDestination(s, j + 1)
  }

  /** One regex match: where `[CopyFile]` starts, where `<Destination>\` starts,
      and where the match ends (the end of the captured line). */
  datatype Match = Match(start: nat, destination: nat, end: nat)

  /** Some match of the pattern starts at p. */
  ghost predicate MatchesAt(s: string, p: int) {
    HasAt(s, p, CopyFileTag) && exists k :: p + |CopyFileTag| <= k && DestinationAt(s, k)
  }

  /** m is the match the engine finds when it tries the pattern at m.start. */
  ghost predicate IsMatch(s: string, m: Match) {
    HasAt(s, m.start, CopyFileTag) &&
    m.start + |CopyFileTag| <= m.destination && DestinationAt(s, m.destination) &&
    (forall k :: m.start + |CopyFileTag| <= k < m.destination ==> !DestinationAt(s, k)) &&
    m.end == LineEnd(s, m.destination + |DestinationTag|)
  }

  lemma MatchStartsThere(s: string, m: Match)
    requires IsMatch(s, m)
    ensures MatchesAt(s, m.start)
  {
    assert m.start + |CopyFileTag| <= m.destination && DestinationAt(s, m.destination);
  }

  /** The leftmost match starting at or after p. */
  function NextMatch(s: string, p: nat): (r: Option<Match>)
    decreases |s| - p
    ensures r.Some? ==> p <= r.value.start && IsMatch(s, r.value)
    ensures r.Some? ==> forall q :: p <= q < r.value.start ==> !MatchesAt(s, q)
    ensures r.None? ==> forall q :: p <= q ==> !MatchesAt(s, q)
  {
    if p + |CopyFileTag| > |s| then None
    else if HasAt(s, p, CopyFileTag) && FirstDestination(s, p + |CopyFileTag|).Some? then
      var d := FirstDestination(s, p + |CopyFileTag|).value;
      Some(Match(p, d, LineEnd(s, d + |DestinationTag|)))
    else NextMatch(s, p + 1)
  }

  /** Regex.Matches from position `from`: every match, in document order. */
  function Matches(s: string, from: nat): (r: seq<Match>)
    requires from <= |s|
    decreases |s| - from
    ensures forall k :: 0 <= k < |r| ==> from <= r[k].start && IsMatch(s, r[k])
    ensures forall k :: 0 <= k < |r| ==> CaptureBounds(s, r[k])
  {
    match NextMatch(s, from)
    case None => []
    case Some(m) =>
      assert from <= m.start < m.end <= |s|;
      [m] + Matches(s, m.end)
  }

  /** Matches finds something exactly when the pattern matches somewhere. */
  lemma MatchesFindAny(s: string, from: nat)
    requires from <= |s|
    ensures Matches(s, from) == [] <==> forall q :: from <= q ==> !MatchesAt(s, q)
  {
    var n := NextMatch(s, from);
    if n.Some? {
      MatchStartsThere(s, n.value);
    }
  }

  /** Matches misses nothing: every position from `from` on where the pattern
      matches lies inside one of the matches returned. */
  lemma {:induction false} MatchesComplete(s: string, from: nat, q: int)
    requires from <= |s| && from <= q && MatchesAt(s, q)
    ensures exists k :: 0 <= k < |Matches(s, from)| && Matches(s, from)[k].start <= q < Matches(s, from)[k].end
    decreases |s| - from
  {
    LeftmostNotAfter(s, from, q);
    var m := NextMatch(s, from).value;
    var rest := Matches(s, m.end);
    var all := Matches(s, from);
    assert all == [m] + rest;
    if q < m.end {
      assert all[0] == m;
      assert 0 < |all| && all[0].start <= q < all[0].end;
    } else {
      MatchesComplete(s, m.end, q);
      var k :| 0 <= k < |rest| && rest[k].start <= q < rest[k].end;
      assert all[k + 1] == rest[k];
      assert 0 <= k + 1 < |all| && all[k + 1].start <= q < all[k + 1].end;
    }
  }

  /** Where the pattern matches at q, the leftmost match from `from` exists and
      starts no later than q. */
  lemma LeftmostNotAfter(s: string, from: nat, q: int)
    requires from <= q && MatchesAt(s, q)
    ensures NextMatch(s, from).Some? && NextMatch(s, from).value.start <= q
    ensures NextMatch(s, from).value.end <= |s|
  {
  }

  /** Matches come in document order and do not overlap: each starts at or
      after the end of the one before. */
  lemma {:induction false} MatchesInDocumentOrder(s: string, from: nat, k: nat)
    requires from <= |s| && k + 1 < |Matches(s, from)|
    ensures Matches(s, from)[k].end <= Matches(s, from)[k + 1].start
    decreases |s| - from
  {
    var m := NextMatch(s, from).value;
    var rest := Matches(s, m.end);
    assert Matches(s, from) == [m] + rest;
    if k > 0 {
      MatchesInDocumentOrder(s, m.end, k - 1);
      assert Matches(s, from)[k] == rest[k - 1] && Matches(s, from)[k + 1] == rest[k];
    } else {
      assert Matches(s, from)[0] == m && Matches(s, from)[1] == rest[0];
      assert m.end <= rest[0].start;
    }
  }

  /** Where group 1 lies: after `<Destination>\`, inside the text. */
  predicate CaptureBounds(s: string, m: Match) {
    m.destination + |DestinationTag| < m.end <= |s|
  }

  /** Group 1 of a match: the rest of the line after `<Destination>\`. */
  function Capture(s: string, m: Match): (r: string)
    requires CaptureBounds(s, m)
    ensures s[..m.destination + |DestinationTag|] + r + s[m.end..] == s
  {
    var r := s[m.destination + |DestinationTag|..m.end];
    assert s[..m.destination + |DestinationTag|] + r + s[m.end..] == s;
    r
  }

  /** A captured destination is a non-empty part of a single line. */
  lemma CaptureIsLine(s: string, m: Match)
    requires IsMatch(s, m)
    ensures CaptureBounds(s, m)
    ensures |Capture(s, m)| >= 1 && '\n' !in Capture(s, m)
  {
    var r := Capture(s, m);
    assert forall k :: 0 <= k < |r| ==> r[k] == s[m.destination + |DestinationTag| + k];
  }

  /** GetFileList: the two fixed names, then the captured destinations in order. */
  function GetFileList(text: string): (r: seq<string>)
    ensures |r| == 2 + |Matches(text, 0)| && |r| >= 2
    ensures r[0] == SetupImageName && r[1] == LicenseName
  {
    var ms := Matches(text, 0);
    var captured := seq(|ms|, k requires 0 <= k < |ms| => Capture(text, ms[k]));
    [SetupImageName, LicenseName] + captured
  }

  /** Entry k + 2 of the list is group 1 of the k-th match, a non-empty
      single line. */
  lemma FileListCapture(text: string, k: nat)
    requires k < |Matches(text, 0)|
    ensures GetFileList(text)[k + 2] == Capture(text, Matches(text, 0)[k])
    ensures |GetFileList(text)[k + 2]| >= 1 && '\n' !in GetFileList(text)[k + 2]
  {
    var ms := Matches(text, 0);
    var captured := seq(|ms|, j requires 0 <= j < |ms| => Capture(text, ms[j]));
    assert GetFileList(text) == [SetupImageName, LicenseName] + captured;
    assert captured[k] == Capture(text, ms[k]);
    CaptureIsLine(text, ms[k]);
  }

  /** A script with no complete `[CopyFile]` ... `<Destination>\` entry yields
      exactly the two fixed names; every such entry adds one more. */
  lemma FileListLength(text: string)
    ensures (forall p :: !MatchesAt(text, p)) ==> GetFileList(text) == [SetupImageName, LicenseName]
    ensures (exists p :: MatchesAt(text, p)) ==> |GetFileList(text)| > 2
  {
    MatchesFindAny(text, 0);
    if exists p :: MatchesAt(text, p) {
      var p :| MatchesAt(text, p);
      assert Matches(text, 0) != [];
    }
  }
}
