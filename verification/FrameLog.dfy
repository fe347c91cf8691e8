/** The recorded scenario: a text index with one line per frame beside a blob of their bytes. The
    recorder prints the index, the frame source parses it back. */
module FrameLog {
  import opened Outcomes
  import opened RingBuffers
  import opened FrameArena

  const INT64_MAX: int := 0x7FFF_FFFF_FFFF_FFFF
  const INT64_MIN: int := -0x8000_0000_0000_0000
  const SIZE_LIMIT: int := 0x1_0000_0000_0000_0000
  const INT_MAX: int := 0x7FFF_FFFF
  const INT_MIN: int := -0x8000_0000

  datatype Entry = Entry(captureTsNs: Nanoseconds, offset: nat, length: nat, isKeyframe: bool, sessionId: string)

  datatype FrameSourceError = CorruptIndex(line: string)

  // -------------------------------------------------------------- printing

  function Digit(d: nat): char
    requires d < 10
  {
    '0' + d as char
  }

  function PrintNat(n: nat): (s: string)
    ensures s != [] && forall c :: c in s ==> IsDigit(c)
  {
    if n < 10 then [Digit(n)] else PrintNat(n / 10) + [Digit(n % 10)]
  }

  function PrintInt(i: int): string {
    if i < 0 then "-" + PrintNat(-i) else PrintNat(i)
  }

  /** ts offset length keyframe session, separated by single blanks. */
  function Line(f: CapturedFrame, offset: nat): string {
    PrintInt(f.captureTsNs) + (" " + (PrintNat(offset) + (" " + (PrintNat(|f.data|) + (" " +
    ((if f.isKeyframe then "1" else "0") + (" " + f.sessionId)))))))
  }

  function Blob(frames: seq<CapturedFrame>): seq<byte> {
    if frames == [] then [] else Blob(frames[..|frames| - 1]) + frames[|frames| - 1].data
  }

  /** The lines of the index; each offset is where the bytes of the frames before end. */
  function Lines(frames: seq<CapturedFrame>): (lines: seq<string>)
    ensures |lines| == |frames|
    ensures forall k :: 0 <= k < |lines| ==> lines[k] == Line(frames[k], |Blob(frames[..k])|)
  {
    seq(|frames|, k requires 0 <= k < |frames| => Line(frames[k], |Blob(frames[..k])|))
  }

  function Joined(lines: seq<string>): string {
    if lines == [] then [] else Joined(lines[..|lines| - 1]) + (lines[|lines| - 1] + "\n")
  }

  function Index(frames: seq<CapturedFrame>): string {
    Joined(Lines(frames))
  }

  // --------------------------------------------------------------- parsing

  predicate IsDigit(c: char) {
    '0' <= c <= '9'
  }

  /** What formatted extraction skips, and ends a word at. */
  predicate IsSpace(c: char) {
    c == ' ' || 9 as char <= c <= 13 as char
  }

  predicate IsSpaceFree(s: string) {
    forall c :: c in s ==> !IsSpace(c)
  }

  function SkipSpaces(s: string): string {
    if s != [] && IsSpace(s[0]) then SkipSpaces(s[1..]) else s
  }

  /** The digits at the front of s, read onto acc, and what follows them. */
  function ReadDigits(s: string, acc: nat): (nat, string) {
    if s != [] && IsDigit(s[0]) then ReadDigits(s[1..], 10 * acc + (s[0] - '0') as nat) else (acc, s)
  }

  /** An optional sign and at least one digit: sign, magnitude, rest. */
  function ReadNumber(s: string): Option<(bool, nat, string)> {
    var t := SkipSpaces(s);
    var isSigned := t != [] && (t[0] == '-' || t[0] == '+');
    var digits := if isSigned then t[1..] else t;
    if digits == [] || !IsDigit(digits[0]) then None
    else
      var (magnitude, rest) := ReadDigits(digits, 0);
      Some((isSigned && t[0] == '-', magnitude, rest))
  }

  /** Extraction into a signed integer fails when the value does not fit. */
  function ReadSigned(s: string, least: int, greatest: int): Option<(int, string)> {
    match ReadNumber(s)
    case None => None
    case Some((isNegative, magnitude, rest)) =>
      var value: int := if isNegative then 0 - magnitude else magnitude;
      if least <= value <= greatest then Some((value, rest)) else None
  }

  /** Extraction into a size: the magnitude must fit, and a minus sign wraps around. */
  function ReadSize(s: string): Option<(nat, string)> {
    match ReadNumber(s)
    case None => None
    case Some((isNegative, magnitude, rest)) =>
      if magnitude >= SIZE_LIMIT then None
      else Some((if isNegative then (SIZE_LIMIT - magnitude) % SIZE_LIMIT else magnitude, rest))
  }

  function TakeWord(s: string): (w: string)
    ensures IsSpaceFree(w)
  {
    if s == [] || IsSpace(s[0]) then [] else [s[0]] + TakeWord(s[1..])
  }

  function ReadWord(s: string): string {
    TakeWord(SkipSpaces(s))
  }

  /** The fields of a line; None when one of the numbers cannot be read. The session may be missing. */
  function ReadFields(line: string): Option<Entry> {
    match ReadSigned(line, INT64_MIN, INT64_MAX)
    case None => None
    case Some((ts, s1)) =>
      match ReadSize(s1)
      case None => None
      case Some((offset, s2)) =>
        match ReadSize(s2)
        case None => None
        case Some((length, s3)) =>
          match ReadSigned(s3, INT_MIN, INT_MAX)
          case None => None
          case Some((flag, s4)) => Some(Entry(ts, offset, length, flag != 0, ReadWord(s4)))
  }

  predicate IsInsideBlob(e: Entry, blobSize: nat) {
    e.offset <= blobSize && e.length <= blobSize - e.offset
  }

  function ParseLine(line: string, blobSize: nat): Result<Entry, FrameSourceError> {
    match ReadFields(line)
    case None => Failure(CorruptIndex(line))
    case Some(e) => if e.length == 0 || !IsInsideBlob(e, blobSize) then Failure(CorruptIndex(line)) else Success(e)
  }

  /** Where the line that starts at from ends: at its newline or at the end of the text. */
  function LineEnd(text: string, from: nat): (end: nat)
    requires from <= |text|
    ensures from <= end <= |text|
    ensures '\n' !in text[from..end]
    ensures end < |text| ==> text[end] == '\n'
    decreases |text| - from
  {
    if from == |text| || text[from] == '\n' then from else LineEnd(text, from + 1)
  }

  /** The lines of the text from position from on; empty ones are passed over. */
  function SplitFrom(text: string, from: nat): seq<string>
    requires from <= |text|
    decreases |text| - from
  {
    if from == |text| then []
    else
      var end := LineEnd(text, from);
      (if end == from then [] else [text[from..end]]) + SplitFrom(text, if end < |text| then end + 1 else end)
  }

  /** The first line that does not parse spoils the index. */
  function ParseAll(lines: seq<string>, blobSize: nat): Result<seq<Entry>, FrameSourceError> {
    if lines == [] then Success([])
    else
      match ParseLine(lines[0], blobSize)
      case Failure(error) => Failure(error)
      case Success(e) => Then([e], ParseAll(lines[1..], blobSize))
  }

  /** An index that is being read: the entries so far, then what the rest of it gives. */
  function Then(entries: seq<Entry>, r: Result<seq<Entry>, FrameSourceError>): Result<seq<Entry>, FrameSourceError> {
    match r
    case Failure(error) => Failure(error)
    case Success(rest) => Success(entries + rest)
  }

  function LoadEntries(text: string, blob: seq<byte>): Result<seq<Entry>, FrameSourceError> {
    ParseAll(SplitFrom(text, 0), |blob|)
  }

  /** What the replay hands on for an entry; a session given to the source overrides the recorded one. */
  function FrameOf(e: Entry, blob: seq<byte>, sessionOverride: string): CapturedFrame
    requires IsInsideBlob(e, |blob|)
  {
    CapturedFrame(e.captureTsNs, blob[e.offset..e.offset + e.length], e.isKeyframe,
                  if sessionOverride == [] then e.sessionId else sessionOverride)
  }

  ghost predicate AllInside(entries: seq<Entry>, blob: seq<byte>) {
    forall e :: e in entries ==> IsInsideBlob(e, |blob|)
  }

  function Replayed(entries: seq<Entry>, blob: seq<byte>, sessionOverride: string): (frames: seq<CapturedFrame>)
    requires AllInside(entries, blob)
    ensures |frames| == |entries|
    ensures forall i :: 0 <= i < |entries| ==> frames[i] == FrameOf(entries[i], blob, sessionOverride)
  {
    if entries == [] then []
    else
      Replayed(entries[..|entries| - 1], blob, sessionOverride)
      + [FrameOf(entries[|entries| - 1], blob, sessionOverride)]
  }

  // --------------------------------------- what the loader lets through

  ghost predicate IsSound(e: Entry, blobSize: nat) {
    e.length > 0 && IsInsideBlob(e, blobSize) && IsSpaceFree(e.sessionId)
  }

  lemma ParsedLineIsSound(line: string, blobSize: nat)
    ensures ParseLine(line, blobSize).Success? ==> IsSound(ParseLine(line, blobSize).value, blobSize)
  {
  }

  /** Whatever the index says, every entry that is loaded is a non-empty slice of the blob, and its
      session is a single word. */
  lemma {:induction false} LoadedEntriesAreSound(lines: seq<string>, blobSize: nat)
    ensures ParseAll(lines, blobSize).Success? ==>
      forall e :: e in ParseAll(lines, blobSize).value ==> IsSound(e, blobSize)
  {
    if lines != [] {
      ParsedLineIsSound(lines[0], blobSize);
      LoadedEntriesAreSound(lines[1..], blobSize);
    }
  }

  // ------------------------------------------------------------ round trip

  lemma {:induction false} DigitsReadBack(n: nat, rest: string)
    ensures ReadDigits(PrintNat(n) + rest, 0) == ReadDigits(rest, n)
  {
    if n < 10 {
      assert ([Digit(n)] + rest)[1..] == rest;
    } else {
      var tail := [Digit(n % 10)] + rest;
      DigitsReadBack(n / 10, tail);
      assert PrintNat(n) + rest == PrintNat(n / 10) + tail;
      assert tail[1..] == rest;
    }
  }

  /** Numbers are printed with nothing that skipping or signs would eat, and end at a blank. */
  lemma NatReadsBack(n: nat, rest: string)
    requires rest == [] || !IsDigit(rest[0])
    ensures ReadNumber(PrintNat(n) + rest) == Some((false, n, rest))
    ensures ReadNumber(" " + (PrintNat(n) + rest)) == Some((false, n, rest))
  {
    var s := PrintNat(n) + rest;
    assert s[0] == PrintNat(n)[0] && s[0] in PrintNat(n);
    DigitsReadBack(n, rest);
    assert (" " + s)[1..] == s;
    assert SkipSpaces(" " + s) == SkipSpaces(s) == s;
  }

  lemma MinusReadsBack(digits: string, magnitude: nat, rest: string)
    requires digits != [] && IsDigit(digits[0]) && ReadDigits(digits, 0) == (magnitude, rest)
    ensures ReadNumber("-" + digits) == Some((true, magnitude, rest))
  {
    var s := "-" + digits;
    assert SkipSpaces(s) == s && s[0] == '-' && s[1..] == digits;
  }

  lemma IntReadsBack(i: int, rest: string)
    requires rest == [] || !IsDigit(rest[0])
    ensures ReadNumber(PrintInt(i) + rest) == Some((i < 0, if i < 0 then -i else i, rest))
  {
    if i < 0 {
      var digits := PrintNat(-i) + rest;
      assert PrintInt(i) + rest == "-" + digits;
      assert digits[0] == PrintNat(-i)[0] && digits[0] in PrintNat(-i);
      DigitsReadBack(-i, rest);
      MinusReadsBack(digits, -i, rest);
    } else {
      NatReadsBack(i, rest);
    }
  }

  lemma {:induction false} WordReadsBack(w: string)
    requires IsSpaceFree(w)
    ensures TakeWord(w) == w && SkipSpaces(w) == w
  {
    if w != [] {
      assert w[0] in w;
      WordReadsBack(w[1..]);
    }
  }

  lemma SessionReadsBack(w: string)
    requires IsSpaceFree(w)
    ensures ReadWord(" " + w) == w
  {
    WordReadsBack(w);
    assert (" " + w)[1..] == w;
    assert SkipSpaces(" " + w) == SkipSpaces(w);
  }

  lemma FlagReadsBack(isKeyframe: bool, rest: string)
    requires rest == [] || !IsDigit(rest[0])
    ensures ReadSigned(" " + ((if isKeyframe then "1" else "0") + rest), INT_MIN, INT_MAX) ==
      Some((if isKeyframe then 1 else 0, rest))
  {
    var n := if isKeyframe then 1 else 0;
    assert PrintNat(n) == (if isKeyframe then "1" else "0");
    NatReadsBack(n, rest);
  }

  lemma LineReadsBack(f: CapturedFrame, offset: nat)
    requires INT64_MIN <= f.captureTsNs <= INT64_MAX && offset < SIZE_LIMIT && |f.data| < SIZE_LIMIT
    requires IsSpaceFree(f.sessionId)
    ensures ReadFields(Line(f, offset)) == Some(Entry(f.captureTsNs, offset, |f.data|, f.isKeyframe, f.sessionId))
  {
    var s4 := " " + f.sessionId;
    var s3 := " " + ((if f.isKeyframe then "1" else "0") + s4);
    var s2 := " " + (PrintNat(|f.data|) + s3);
    var s1 := " " + (PrintNat(offset) + s2);
    assert Line(f, offset) == PrintInt(f.captureTsNs) + s1;
    IntReadsBack(f.captureTsNs, s1);
    NatReadsBack(offset, s2);
    NatReadsBack(|f.data|, s3);
    FlagReadsBack(f.isKeyframe, s4);
    SessionReadsBack(f.sessionId);
  }

  /** Line k stands behind the lines before it. */
  lemma {:induction false} JoinedHasLine(lines: seq<string>, k: nat) returns (tail: string)
    requires k < |lines|
    ensures Joined(lines) == Joined(lines[..k]) + (lines[k] + ("\n" + tail))
    ensures |Joined(lines[..k + 1])| == |Joined(lines[..k])| + |lines[k]| + 1
  {
    var n := |lines| - 1;
    assert lines[..k + 1][..k] == lines[..k];
    if k == n {
      tail := [];
      assert lines[..k + 1] == lines && lines[..n] == lines[..k];
      assert "\n" + tail == "\n";
    } else {
      assert lines[..n][..k] == lines[..k];
      var rest := JoinedHasLine(lines[..n], k);
      tail := rest + (lines[n] + "\n");
      JoinAssociates(Joined(lines[..k]), lines[k], rest, lines[n] + "\n");
    }
  }

  lemma JoinAssociates(a: string, line: string, rest: string, last: string)
    ensures (a + (line + ("\n" + rest))) + last == a + (line + ("\n" + (rest + last)))
  {
  }

  /** The bytes of frame k stand in the blob behind those of the frames before it. */
  lemma {:induction false} BlobHasFrame(frames: seq<CapturedFrame>, k: nat)
    requires k < |frames|
    ensures var offset, length := |Blob(frames[..k])|, |frames[k].data|;
      offset + length <= |Blob(frames)| && Blob(frames)[offset..offset + length] == frames[k].data
  {
    var n := |frames| - 1;
    if k < n {
      assert frames[..n][..k] == frames[..k];
      BlobHasFrame(frames[..n], k);
      var offset, length := |Blob(frames[..k])|, |frames[k].data|;
      assert frames[..n][k] == frames[k];
      assert Blob(frames)[..|Blob(frames[..n])|] == Blob(frames[..n]);
      assert Blob(frames)[offset..offset + length] == Blob(frames[..n])[offset..offset + length];
    } else {
      assert frames[..k] == frames[..n];
      assert Blob(frames) == Blob(frames[..n]) + frames[n].data;
    }
  }

  lemma LineIsOneLine(f: CapturedFrame, offset: nat)
    requires IsSpaceFree(f.sessionId)
    ensures '\n' !in Line(f, offset) && Line(f, offset) != []
  {
    assert forall c :: c in PrintInt(f.captureTsNs) ==> c == '-' || IsDigit(c);
  }

  lemma {:induction false} LineEndIs(text: string, from: nat, end: nat)
    requires from <= end <= |text| && '\n' !in text[from..end] && (end < |text| ==> text[end] == '\n')
    ensures LineEnd(text, from) == end
    decreases end - from
  {
    if from < end {
      assert text[from] in text[from..end];
      assert text[from..end][1..] == text[from + 1..end];
      LineEndIs(text, from + 1, end);
    }
  }

  function EntryOf(frames: seq<CapturedFrame>, k: nat): Entry
    requires k < |frames|
  {
    Entry(frames[k].captureTsNs, |Blob(frames[..k])|, |frames[k].data|, frames[k].isKeyframe, frames[k].sessionId)
  }

  function Entries(frames: seq<CapturedFrame>): (entries: seq<Entry>)
    ensures |entries| == |frames|
    ensures forall k :: 0 <= k < |entries| ==> entries[k] == EntryOf(frames, k)
  {
    seq(|frames|, k requires 0 <= k < |frames| => EntryOf(frames, k))
  }

  /** Frames whose fields fit their types; this is all the recorder asks. */
  ghost predicate IsRecordable(frames: seq<CapturedFrame>) {
    |Blob(frames)| < SIZE_LIMIT && forall f :: f in frames ==> INT64_MIN <= f.captureTsNs <= INT64_MAX
  }

  ghost predicate IsReplayable(f: CapturedFrame) {
    f.data != [] && IsSpaceFree(f.sessionId)
  }

  lemma LineStandsAt(before: string, line: string, tail: string)
    requires line != [] && '\n' !in line
    ensures var text, from := before + (line + ("\n" + tail)), |before|;
      && LineEnd(text, from) == from + |line| < |text|
      && text[from..from + |line|] == line
  {
    var text, from := before + (line + ("\n" + tail)), |before|;
    assert text[from..from + |line|] == line;
    assert text[from + |line|] == '\n';
    LineEndIs(text, from, from + |line|);
  }

  lemma JoinedLineEnds(lines: seq<string>, k: nat)
    requires k < |lines| && lines[k] != [] && '\n' !in lines[k]
    ensures var text, from := Joined(lines), |Joined(lines[..k])|;
      && from < |text|
      && LineEnd(text, from) == from + |lines[k]| < |text|
      && text[from..LineEnd(text, from)] == lines[k]
      && LineEnd(text, from) + 1 == |Joined(lines[..k + 1])|
  {
    var tail := JoinedHasLine(lines, k);
    LineStandsAt(Joined(lines[..k]), lines[k], tail);
  }

  /** Splitting undoes joining. */
  lemma {:induction false} JoinedSplits(lines: seq<string>, k: nat)
    requires k <= |lines| && forall i :: 0 <= i < |lines| ==> lines[i] != [] && '\n' !in lines[i]
    ensures |Joined(lines[..k])| <= |Joined(lines)|
    ensures SplitFrom(Joined(lines), |Joined(lines[..k])|) == lines[k..]
    decreases |lines| - k
  {
    if k == |lines| {
      assert lines[..k] == lines;
    } else {
      JoinedSplits(lines, k + 1);
      JoinedSplitsAt(lines, k);
    }
  }

  lemma JoinedSplitsAt(lines: seq<string>, k: nat)
    requires k < |lines| && lines[k] != [] && '\n' !in lines[k]
    requires |Joined(lines[..k + 1])| <= |Joined(lines)|
    requires SplitFrom(Joined(lines), |Joined(lines[..k + 1])|) == lines[k + 1..]
    ensures |Joined(lines[..k])| <= |Joined(lines)|
    ensures SplitFrom(Joined(lines), |Joined(lines[..k])|) == lines[k..]
  {
    JoinedLineEnds(lines, k);
    LineSplits(Joined(lines), |Joined(lines[..k])|, lines[k]);
    assert lines[k..] == [lines[k]] + lines[k + 1..];
  }

  lemma LineSplits(text: string, from: nat, line: string)
    requires from < |text| && line != [] && LineEnd(text, from) == from + |line| < |text|
    requires text[from..LineEnd(text, from)] == line
    ensures SplitFrom(text, from) == [line] + SplitFrom(text, LineEnd(text, from) + 1)
  {
  }

  ghost predicate Parses(line: string, blobSize: nat, e: Entry) {
    line != [] && '\n' !in line && ParseLine(line, blobSize) == Success(e)
  }

  lemma {:induction false} LinesParse(lines: seq<string>, entries: seq<Entry>, blobSize: nat)
    requires |lines| == |entries| && forall i :: 0 <= i < |lines| ==> Parses(lines[i], blobSize, entries[i])
    ensures ParseAll(lines, blobSize) == Success(entries)
  {
    if lines != [] {
      LinesParse(lines[1..], entries[1..], blobSize);
      assert entries == [entries[0]] + entries[1..];
    }
  }

  /** Every line the recorder prints parses to the frame's entry. */
  lemma PrintedLineParses(frames: seq<CapturedFrame>, k: nat)
    requires IsRecordable(frames) && k < |frames| && IsReplayable(frames[k])
    ensures Parses(Lines(frames)[k], |Blob(frames)|, EntryOf(frames, k))
  {
    assert frames[k] in frames;
    var offset := |Blob(frames[..k])|;
    BlobHasFrame(frames, k);
    LineIsOneLine(frames[k], offset);
    LineReadsBack(frames[k], offset);
  }

  lemma IndexReadsBack(frames: seq<CapturedFrame>)
    requires IsRecordable(frames) && forall f :: f in frames ==> IsReplayable(f)
    ensures LoadEntries(Index(frames), Blob(frames)) == Success(Entries(frames))
  {
    forall k | 0 <= k < |frames|
      ensures Parses(Lines(frames)[k], |Blob(frames)|, Entries(frames)[k])
    {
      assert frames[k] in frames;
      PrintedLineParses(frames, k);
    }
    LinesParse(Lines(frames), Entries(frames), |Blob(frames)|);
    JoinedSplits(Lines(frames), 0);
    assert Lines(frames)[..0] == [] && Lines(frames)[0..] == Lines(frames);
  }

  lemma EntryReplays(frames: seq<CapturedFrame>, k: nat)
    requires k < |frames|
    ensures IsInsideBlob(EntryOf(frames, k), |Blob(frames)|)
    ensures FrameOf(EntryOf(frames, k), Blob(frames), "") == frames[k]
  {
    BlobHasFrame(frames, k);
  }

  lemma EntriesReplay(frames: seq<CapturedFrame>)
    ensures AllInside(Entries(frames), Blob(frames))
    ensures Replayed(Entries(frames), Blob(frames), "") == frames
  {
    forall k | 0 <= k < |frames|
      ensures IsInsideBlob(Entries(frames)[k], |Blob(frames)|)
      ensures FrameOf(Entries(frames)[k], Blob(frames), "") == frames[k]
    {
      EntryReplays(frames, k);
    }
  }

  /** The recorded frames come back. */
  ghost predicate ComesBack(frames: seq<CapturedFrame>) {
    var loaded := LoadEntries(Index(frames), Blob(frames));
    loaded.Success? && AllInside(loaded.value, Blob(frames)) && Replayed(loaded.value, Blob(frames), "") == frames
  }

  /** The round trip: loading and replaying what was recorded gives the same frames (timestamps, bytes,
      keyframe flags, sessions, order) exactly when no frame is empty and no session holds a blank. */
  lemma RecordingRoundTrips(frames: seq<CapturedFrame>)
    requires IsRecordable(frames)
    ensures ComesBack(frames) <==> forall f :: f in frames ==> IsReplayable(f)
  {
    if forall f :: f in frames ==> IsReplayable(f) {
      IndexReadsBack(frames);
      EntriesReplay(frames);
    }
    if ComesBack(frames) {
      LoadedEntriesAreSound(SplitFrom(Index(frames), 0), |Blob(frames)|);
      OnlyReplayableIsReplayed(LoadEntries(Index(frames), Blob(frames)).value, Blob(frames));
    }
  }

  lemma OnlyReplayableIsReplayed(entries: seq<Entry>, blob: seq<byte>)
    requires AllInside(entries, blob) && forall e :: e in entries ==> IsSound(e, |blob|)
    ensures forall f :: f in Replayed(entries, blob, "") ==> IsReplayable(f)
  {
    var frames := Replayed(entries, blob, "");
    forall f | f in frames ensures IsReplayable(f) {
      var i :| 0 <= i < |frames| && frames[i] == f;
      assert entries[i] in entries;
      assert f == FrameOf(entries[i], blob, "");
    }
  }

  lemma SplitStep(text: string, from: nat)
    requires from < |text|
    ensures var end := LineEnd(text, from);
      var rest := SplitFrom(text, if end < |text| then end + 1 else end);
      if end == from then SplitFrom(text, from) == rest
      else
        && SplitFrom(text, from) != [] && SplitFrom(text, from)[0] == text[from..end]
        && SplitFrom(text, from)[1..] == rest
  {
  }

  lemma ReadOneMore(entries: seq<Entry>, e: Entry, r: Result<seq<Entry>, FrameSourceError>)
    ensures Then(entries + [e], r) == Then(entries, Then([e], r))
  {
    if r.Success? {
      assert entries + [e] + r.value == entries + ([e] + r.value);
    }
  }

  lemma ReadNothing(entries: seq<Entry>, r: Result<seq<Entry>, FrameSourceError>)
    ensures Then([], r) == r
    ensures Then(entries, Success([])) == Success(entries)
  {
    if r.Success? {
      assert [] + r.value == r.value;
    }
    assert entries + [] == entries;
  }

  lemma LinesExtend(frames: seq<CapturedFrame>, f: CapturedFrame)
    ensures Lines(frames + [f]) == Lines(frames) + [Line(f, |Blob(frames)|)]
  {
    var more := frames + [f];
    assert more[..|frames|] == frames;
    forall k | 0 <= k < |frames| ensures Lines(more)[k] == Lines(frames)[k] {
      assert more[..k] == frames[..k];
    }
  }

  lemma JoinedExtends(lines: seq<string>, line: string)
    ensures Joined(lines + [line]) == Joined(lines) + (line + "\n")
  {
    assert (lines + [line])[..|lines|] == lines;
  }

  lemma RecordingExtends(frames: seq<CapturedFrame>, f: CapturedFrame)
    ensures Index(frames + [f]) == Index(frames) + (Line(f, |Blob(frames)|) + "\n")
    ensures Blob(frames + [f]) == Blob(frames) + f.data
  {
    LinesExtend(frames, f);
    JoinedExtends(Lines(frames), Line(f, |Blob(frames)|));
    assert (frames + [f])[..|frames|] == frames;
  }

  /** The loader has read the text up to a position: what it loads in the end is the entries so far and
      then what the rest gives. */
  ghost predicate HasReadTo(text: string, blob: seq<byte>, at: nat, entries: seq<Entry>) {
    at <= |text| && LoadEntries(text, blob) == Then(entries, ParseAll(SplitFrom(text, at), |blob|))
  }

  lemma ReadingStarts(text: string, blob: seq<byte>)
    ensures HasReadTo(text, blob, 0, [])
  {
    ReadNothing([], LoadEntries(text, blob));
  }

  lemma ReadingGoesOn(text: string, blob: seq<byte>, at: nat, entries: seq<Entry>, line: string, next: nat,
                      parsed: Result<Entry, FrameSourceError>)
    requires at < |text| && HasReadTo(text, blob, at, entries)
    requires line == text[at..LineEnd(text, at)] && parsed == ParseLine(line, |blob|)
    requires next == if LineEnd(text, at) < |text| then LineEnd(text, at) + 1 else LineEnd(text, at)
    ensures line == [] ==> HasReadTo(text, blob, next, entries)
    ensures line != [] && parsed.Failure? ==> LoadEntries(text, blob) == Failure(parsed.error)
    ensures line != [] && parsed.Success? ==> HasReadTo(text, blob, next, entries + [parsed.value])
  {
    SplitStep(text, at);
    if line != [] {
      var rest := ParseAll(SplitFrom(text, next), |blob|);
      if parsed.Success? {
        assert ParseAll(SplitFrom(text, at), |blob|) == Then([parsed.value], rest);
        ReadOneMore(entries, parsed.value, rest);
      }
    }
  }

  lemma ReadingEnds(text: string, blob: seq<byte>, entries: seq<Entry>)
    requires HasReadTo(text, blob, |text|, entries)
    ensures LoadEntries(text, blob) == Success(entries)
  {
    ReadNothing(entries, Success([]));
  }

  // ------------------------------------------------------- as the code runs

  class FrameLogRecorder {
    var index: string
    var blob: seq<byte>
    var offset: nat

    constructor ()
      ensures index == [] && blob == [] && offset == 0
    {
      index, blob, offset := [], [], 0;
    }

    /** The recorder has written these frames. */
    ghost predicate Holds(frames: seq<CapturedFrame>)
      reads this
    {
      index == Index(frames) && blob == Blob(frames) && offset == |blob|
    }

    method Record(frame: CapturedFrame, ghost recorded: seq<CapturedFrame>)
      requires Holds(recorded)
      modifies this
      ensures Holds(recorded + [frame])
    {
      RecordingExtends(recorded, frame);
      index := index + (Line(frame, offset) + "\n");
      blob := blob + frame.data;
      offset := offset + |frame.data|;
    }
  }

  class RecordedFrameSource {
    const blob: seq<byte>
    const sessionOverride: string

    constructor (blob: seq<byte>, sessionOverride: string)
      ensures this.blob == blob && this.sessionOverride == sessionOverride
    {
      this.blob, this.sessionOverride := blob, sessionOverride;
    }

    method LoadIndex(text: string) returns (r: Result<seq<Entry>, FrameSourceError>)
      ensures r == LoadEntries(text, blob)
    {
      var entries: seq<Entry> := [];
      var at := 0;
      ReadingStarts(text, blob);
      while at < |text|
        invariant HasReadTo(text, blob, at, entries)
        decreases |text| - at
      {
        var end := LineEnd(text, at);
        var line := text[at..end];
        var next := if end < |text| then end + 1 else end;
        ReadingGoesOn(text, blob, at, entries, line, next, ParseLine(line, |blob|));
        at := next;
        if line != [] {
          var parsed := ParseLine(line, |blob|);
          if parsed.Failure? {
            return Failure(parsed.error);
          }
          entries := entries + [parsed.value];
        }
      }
      ReadingEnds(text, blob, entries);
      return Success(entries);
    }

    /** Hands the entries on until the source is told to stop, which it notices before entry `stopAt`. */
    method Replay(entries: seq<Entry>, stopAt: nat) returns (delivered: seq<CapturedFrame>)
      requires AllInside(entries, blob)
      ensures delivered == Replayed(entries, blob, sessionOverride)[..if stopAt < |entries| then stopAt else |entries|]
    {
      delivered := [];
      for i := 0 to |entries|
        invariant delivered == Replayed(entries, blob, sessionOverride)[..i] && i <= stopAt
      {
        if i == stopAt {
          return;
        }
        assert entries[i] in entries;
        delivered := delivered + [FrameOf(entries[i], blob, sessionOverride)];
      }
    }
  }
}
