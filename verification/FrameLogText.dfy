/** The text of the frame log, both ways: what the recorder writes for a frame, and exactly which texts the
    loader accepts and what it reads from them. */
module FrameLogText {
  import opened Outcomes
  import opened Sequences
  import opened RingBuffers
  import opened FrameArena
  import opened FrameLog

  // -------------------------------------------------------------- decimals

  predicate AllDigits(s: string) {
    forall i :: 0 <= i < |s| ==> '0' <= s[i] <= '9'
  }

  /** Digits read onto a number that is already there. */
  function Onto(n: nat, digits: string): nat
    requires AllDigits(digits)
  {
    if digits == [] then n
    else 10 * Onto(n, digits[..|digits| - 1]) + (digits[|digits| - 1] - '0') as nat
  }

  /** The number that a string of digits stands for. */
  function ValueOf(digits: string): nat
    requires AllDigits(digits)
  {
    Onto(0, digits)
  }

  /** The one way to write a number without leading zeros. */
  predicate IsDecimal(s: string, n: nat) {
    s != [] && AllDigits(s) && (|s| > 1 ==> s[0] != '0') && ValueOf(s) == n
  }

  lemma {:induction false} PrintedIsDecimal(n: nat)
    ensures IsDecimal(PrintNat(n), n)
    ensures n > 0 ==> PrintNat(n)[0] != '0'
  {
    if n >= 10 {
      PrintedIsDecimal(n / 10);
      var front, s := PrintNat(n / 10), PrintNat(n);
      assert s[..|s| - 1] == front && s[0] == front[0];
    } else {
      assert [Digit(n)][..0] == [];
      assert (Digit(n) - '0') as nat == n;
      assert Onto(0, [Digit(n)]) == 10 * Onto(0, []) + n;
    }
  }

  // --------------------------------------------------------------- writing

  /** The line of a frame whose bytes start at offset: instant, offset, length, 1 for a keyframe and 0 for
      another frame, session, a blank between each two. */
  ghost predicate IsLineFor(line: string, f: CapturedFrame, offset: nat, instant: string, start: string,
                            length: string)
  {
    && IsDecimal(instant, if f.captureTsNs < 0 then -f.captureTsNs else f.captureTsNs)
    && IsDecimal(start, offset) && IsDecimal(length, |f.data|)
    && line == (if f.captureTsNs < 0 then "-" + instant else instant) + (" " + (start + (" " + (length + (" " +
               ((if f.isKeyframe then "1" else "0") + (" " + f.sessionId)))))))
  }

  lemma LineIsWritten(f: CapturedFrame, offset: nat)
    ensures exists instant, start, length :: IsLineFor(Line(f, offset), f, offset, instant, start, length)
  {
    var magnitude: nat := if f.captureTsNs < 0 then -f.captureTsNs else f.captureTsNs;
    var instant, start, length := PrintNat(magnitude), PrintNat(offset), PrintNat(|f.data|);
    PrintedIsDecimal(magnitude);
    PrintedIsDecimal(offset);
    PrintedIsDecimal(|f.data|);
    assert IsLineFor(Line(f, offset), f, offset, instant, start, length);
  }

  // --------------------------------------------------------------- numbers

  /** Blank, tab, newline, vertical tab, form feed, carriage return. */
  predicate IsWhite(c: char) {
    c == ' ' || c == '\t' || c == '\n' || c == 11 as char || c == 12 as char || c == '\r'
  }

  predicate AllWhite(s: string) {
    forall i :: 0 <= i < |s| ==> IsWhite(s[i])
  }

  /** A number at the front of a text, and what follows it. */
  datatype Numeral = Numeral(isNegative: bool, magnitude: nat, rest: string) {
    function Value(): int {
      if isNegative then 0 - magnitude else magnitude
    }

    /** As a size of 64 bits a minus sign wraps around. */
    function Size(): int {
      if isNegative && magnitude > 0 then SIZE_LIMIT - magnitude else magnitude
    }
  }

  ghost predicate IsSpelled(text: string, n: Numeral, white: string, sign: string, digits: string) {
    && text == white + (sign + (digits + n.rest))
    && AllWhite(white) && (sign == "" || sign == "+" || sign == "-") && digits != [] && AllDigits(digits)
    && (n.rest == [] || !('0' <= n.rest[0] <= '9'))
    && n.isNegative == (sign == "-") && n.magnitude == ValueOf(digits)
  }

  /** White space, at most one sign, and all the digits there are. */
  ghost predicate BeginsWith(text: string, n: Numeral) {
    exists white, sign, digits :: IsSpelled(text, n, white, sign, digits)
  }

  lemma WhiteIsSpace(c: char)
    ensures IsWhite(c) <==> IsSpace(c)
  {
  }

  lemma {:induction false} OntoFront(n: nat, digits: string)
    requires digits != [] && AllDigits(digits)
    ensures Onto(n, digits) == Onto(10 * n + (digits[0] - '0') as nat, digits[1..])
  {
    var last := |digits| - 1;
    if last > 0 {
      OntoFront(n, digits[..last]);
      assert digits[..last][1..] == digits[1..][..last - 1];
    } else {
      assert digits[..0] == [] && digits[1..] == [];
    }
  }

  lemma {:induction false} DigitsAreRead(digits: string, rest: string, n: nat)
    requires AllDigits(digits) && (rest == [] || !('0' <= rest[0] <= '9'))
    ensures ReadDigits(digits + rest, n) == (Onto(n, digits), rest)
  {
    if digits == [] {
      assert digits + rest == rest;
    } else {
      DigitsAreRead(digits[1..], rest, 10 * n + (digits[0] - '0') as nat);
      OntoFront(n, digits);
      assert (digits + rest)[1..] == digits[1..] + rest;
    }
  }

  lemma {:induction false} ReadAreDigits(s: string, n: nat) returns (digits: string)
    ensures AllDigits(digits) && s == digits + ReadDigits(s, n).1
    ensures ReadDigits(s, n).0 == Onto(n, digits)
    ensures var rest := ReadDigits(s, n).1; rest == [] || !('0' <= rest[0] <= '9')
  {
    if s != [] && IsDigit(s[0]) {
      var more := ReadAreDigits(s[1..], 10 * n + (s[0] - '0') as nat);
      digits := [s[0]] + more;
      OntoFront(n, digits);
      assert digits[1..] == more;
    } else {
      digits := [];
    }
  }

  lemma {:induction false} WhiteIsSkipped(white: string, s: string)
    requires AllWhite(white) && (s == [] || !IsWhite(s[0]))
    ensures SkipSpaces(white + s) == s
  {
    if white == [] {
      assert white + s == s;
      if s != [] {
        WhiteIsSpace(s[0]);
      }
    } else {
      WhiteIsSpace(white[0]);
      assert (white + s)[1..] == white[1..] + s;
      WhiteIsSkipped(white[1..], s);
    }
  }

  lemma {:induction false} SkippedIsWhite(s: string) returns (white: string)
    ensures AllWhite(white) && s == white + SkipSpaces(s)
    ensures SkipSpaces(s) == [] || !IsWhite(SkipSpaces(s)[0])
  {
    if s != [] && IsSpace(s[0]) {
      WhiteIsSpace(s[0]);
      var more := SkippedIsWhite(s[1..]);
      white := [s[0]] + more;
    } else {
      white := [];
      if s != [] {
        WhiteIsSpace(s[0]);
      }
    }
  }

  lemma SpelledIsRead(text: string, n: Numeral, white: string, sign: string, digits: string)
    requires IsSpelled(text, n, white, sign, digits)
    ensures ReadNumber(text) == Some((n.isNegative, n.magnitude, n.rest))
  {
    var t := sign + (digits + n.rest);
    assert t[0] == if sign == "" then digits[0] else sign[0];
    WhiteIsSkipped(white, t);
    DigitsAreRead(digits, n.rest, 0);
    assert (if sign == "" then t else t[1..]) == digits + n.rest;
  }

  lemma ReadIsSpelled(text: string, n: Numeral)
    requires ReadNumber(text) == Some((n.isNegative, n.magnitude, n.rest))
    ensures BeginsWith(text, n)
  {
    var white := SkippedIsWhite(text);
    var t := SkipSpaces(text);
    var sign := if t[0] == '-' then "-" else if t[0] == '+' then "+" else "";
    var digits := ReadAreDigits(t[|sign|..], 0);
    assert t == sign + t[|sign|..];
    assert IsSpelled(text, n, white, sign, digits);
  }

  /** Formatted extraction of a number. */
  lemma ReadNumberIsExact(text: string, n: Numeral)
    ensures ReadNumber(text) == Some((n.isNegative, n.magnitude, n.rest)) <==> BeginsWith(text, n)
  {
    if ReadNumber(text) == Some((n.isNegative, n.magnitude, n.rest)) {
      ReadIsSpelled(text, n);
    }
    if white, sign, digits :| IsSpelled(text, n, white, sign, digits) {
      SpelledIsRead(text, n, white, sign, digits);
    }
  }

  // ----------------------------------------------------------------- words

  ghost predicate IsWordOf(text: string, word: string, white: string, tail: string) {
    && text == white + (word + tail) && AllWhite(white)
    && (forall i :: 0 <= i < |word| ==> !IsWhite(word[i]))
    && (tail == [] || (word != [] && IsWhite(tail[0])))
  }

  /** The first word of the text, if it has one. */
  ghost predicate IsFirstWord(text: string, word: string) {
    exists white, tail :: IsWordOf(text, word, white, tail)
  }

  lemma {:induction false} WordIsTaken(word: string, tail: string)
    requires forall i :: 0 <= i < |word| ==> !IsWhite(word[i])
    requires tail == [] || IsWhite(tail[0])
    ensures TakeWord(word + tail) == word
  {
    if word == [] {
      assert word + tail == tail;
      if tail != [] {
        WhiteIsSpace(tail[0]);
      }
    } else {
      WhiteIsSpace(word[0]);
      assert (word + tail)[1..] == word[1..] + tail;
      WordIsTaken(word[1..], tail);
    }
  }

  lemma {:induction false} TakenIsWord(s: string) returns (tail: string)
    ensures s == TakeWord(s) + tail && (tail == [] || IsWhite(tail[0]))
    ensures forall i :: 0 <= i < |TakeWord(s)| ==> !IsWhite(TakeWord(s)[i])
  {
    if s == [] || IsSpace(s[0]) {
      tail := s;
      if s != [] {
        WhiteIsSpace(s[0]);
      }
    } else {
      WhiteIsSpace(s[0]);
      tail := TakenIsWord(s[1..]);
    }
  }

  lemma ReadWordIsExact(text: string, word: string)
    ensures ReadWord(text) == word <==> IsFirstWord(text, word)
  {
    var white := SkippedIsWhite(text);
    var tail := TakenIsWord(SkipSpaces(text));
    assert IsWordOf(text, ReadWord(text), white, tail);
    if w, rest :| IsWordOf(text, word, w, rest) {
      assert word + rest != [] ==> (word + rest)[0] == word[0];
      WhiteIsSkipped(w, word + rest);
      WordIsTaken(word, rest);
    }
  }

  // ----------------------------------------------------------------- lines

  ghost predicate AreFields(line: string, e: Entry, instant: Numeral, start: Numeral, length: Numeral, flag: Numeral) {
    && BeginsWith(line, instant) && BeginsWith(instant.rest, start)
    && BeginsWith(start.rest, length) && BeginsWith(length.rest, flag) && IsFirstWord(flag.rest, e.sessionId)
    && INT64_MIN <= instant.Value() <= INT64_MAX && INT_MIN <= flag.Value() <= INT_MAX
    && start.magnitude < SIZE_LIMIT && length.magnitude < SIZE_LIMIT
    && e == Entry(instant.Value(), start.Size(), length.Size(), flag.Value() != 0, e.sessionId)
  }

  /** The line describes the entry: four numbers that fit their types and perhaps a word, and the slice they
      tell of is not empty and lies in the blob. */
  ghost predicate Describes(line: string, blobSize: nat, e: Entry) {
    && e.length > 0 && e.offset + e.length <= blobSize
    && exists instant, start, length, flag :: AreFields(line, e, instant, start, length, flag)
  }

  function Numbered(n: Numeral): Option<(bool, nat, string)> {
    Some((n.isNegative, n.magnitude, n.rest))
  }

  lemma SignedIsValue(text: string, n: Numeral, least: int, greatest: int)
    requires ReadNumber(text) == Numbered(n)
    ensures ReadSigned(text, least, greatest) ==
      if least <= n.Value() <= greatest then Some((n.Value(), n.rest)) else None
  {
  }

  lemma SizeIsSize(text: string, n: Numeral)
    requires ReadNumber(text) == Numbered(n)
    ensures n.magnitude < SIZE_LIMIT ==> n.Size() >= 0 && ReadSize(text) == Some((n.Size(), n.rest))
    ensures n.magnitude >= SIZE_LIMIT ==> ReadSize(text) == None
  {
  }

  /** The four numbers and the word decide what is read. */
  lemma NumeralsDecide(line: string, instant: Numeral, start: Numeral, length: Numeral, flag: Numeral)
    requires ReadNumber(line) == Numbered(instant) && ReadNumber(instant.rest) == Numbered(start)
    requires ReadNumber(start.rest) == Numbered(length) && ReadNumber(length.rest) == Numbered(flag)
    requires start.magnitude < SIZE_LIMIT && length.magnitude < SIZE_LIMIT
    ensures start.Size() >= 0 && length.Size() >= 0
    ensures ReadFields(line) ==
      if INT64_MIN <= instant.Value() <= INT64_MAX && INT_MIN <= flag.Value() <= INT_MAX
      then Some(Entry(instant.Value(), start.Size(), length.Size(), flag.Value() != 0, ReadWord(flag.rest)))
      else None
  {
    SignedIsValue(line, instant, INT64_MIN, INT64_MAX);
    SizeIsSize(instant.rest, start);
    SizeIsSize(start.rest, length);
    SignedIsValue(length.rest, flag, INT_MIN, INT_MAX);
  }

  lemma FieldsAreRead(line: string, e: Entry, instant: Numeral, start: Numeral, length: Numeral, flag: Numeral)
    requires AreFields(line, e, instant, start, length, flag)
    ensures ReadFields(line) == Some(e)
  {
    ReadNumberIsExact(line, instant);
    ReadNumberIsExact(instant.rest, start);
    ReadNumberIsExact(start.rest, length);
    ReadNumberIsExact(length.rest, flag);
    ReadWordIsExact(flag.rest, e.sessionId);
    NumeralsDecide(line, instant, start, length, flag);
  }

  /** What follows the number at the front. */
  function Rest(text: string): string {
    match ReadNumber(text)
    case None => text
    case Some((_, _, rest)) => rest
  }

  lemma FieldsNeedNumbers(line: string)
    requires ReadFields(line).Some?
    ensures ReadNumber(line).Some? && ReadNumber(Rest(line)).Some? && ReadNumber(Rest(Rest(line))).Some?
    ensures ReadNumber(Rest(Rest(Rest(line)))).Some?
    ensures ReadNumber(Rest(line)).value.1 < SIZE_LIMIT && ReadNumber(Rest(Rest(line))).value.1 < SIZE_LIMIT
  {
  }

  lemma NumberIsNumeral(text: string) returns (n: Numeral)
    requires ReadNumber(text).Some?
    ensures ReadNumber(text) == Numbered(n) && BeginsWith(text, n) && n.rest == Rest(text)
    ensures n.magnitude == ReadNumber(text).value.1
  {
    var (isNegative, magnitude, rest) := ReadNumber(text).value;
    n := Numeral(isNegative, magnitude, rest);
    ReadNumberIsExact(text, n);
  }

  lemma ReadAreFields(line: string, e: Entry)
    requires ReadFields(line) == Some(e)
    ensures exists instant, start, length, flag :: AreFields(line, e, instant, start, length, flag)
  {
    FieldsNeedNumbers(line);
    var instant := NumberIsNumeral(line);
    var start := NumberIsNumeral(instant.rest);
    var length := NumberIsNumeral(start.rest);
    var flag := NumberIsNumeral(length.rest);
    NumeralsDecide(line, instant, start, length, flag);
    ReadWordIsExact(flag.rest, e.sessionId);
    assert AreFields(line, e, instant, start, length, flag);
  }

  /** A line is accepted exactly when it describes an entry, and gives that entry; any other is reported. */
  lemma ParsedLineIsExact(line: string, blobSize: nat, e: Entry)
    ensures ParseLine(line, blobSize) == Success(e) <==> Describes(line, blobSize, e)
    ensures ParseLine(line, blobSize).Failure? ==> ParseLine(line, blobSize) == Failure(CorruptIndex(line))
  {
    if ParseLine(line, blobSize) == Success(e) {
      ReadAreFields(line, e);
    }
    if instant, start, length, flag :| AreFields(line, e, instant, start, length, flag) {
      FieldsAreRead(line, e, instant, start, length, flag);
    }
  }

  // ----------------------------------------------------------------- texts

  /** Lines, each ended by a newline, and what follows the last newline. */
  function Text(lines: seq<string>, last: string): string {
    if lines == [] then last else lines[0] + ("\n" + Text(lines[1..], last))
  }

  function NonEmpty(lines: seq<string>): seq<string> {
    Filter(lines, (line: string) => line != "")
  }

  lemma {:induction false} LineEndShifts(before: string, t: string, from: nat)
    requires from <= |t|
    ensures LineEnd(before + t, |before| + from) == |before| + LineEnd(t, from)
    decreases |t| - from
  {
    if from < |t| {
      assert (before + t)[|before| + from] == t[from];
      if t[from] != '\n' {
        LineEndShifts(before, t, from + 1);
      }
    }
  }

  /** The piece from one position to another, unless it is empty. */
  function Piece(text: string, from: nat, end: nat): seq<string>
    requires from <= end <= |text|
  {
    if end == from then [] else [text[from..end]]
  }

  lemma SplitUnfolds(text: string, from: nat, end: nat, next: nat)
    requires from < |text| && end == LineEnd(text, from) && next == if end < |text| then end + 1 else end
    ensures next <= |text| && SplitFrom(text, from) == Piece(text, from, end) + SplitFrom(text, next)
  {
  }

  lemma PieceShifts(before: string, t: string, from: nat, end: nat)
    requires from <= end <= |t|
    ensures Piece(before + t, |before| + from, |before| + end) == Piece(t, from, end)
  {
    assert (before + t)[|before| + from..|before| + end] == t[from..end];
  }

  lemma SameSplit(text: string, t: string, at: nat, from: nat, end: nat, next: nat, shift: nat)
    requires from < |t| && end == LineEnd(t, from) && next == (if end < |t| then end + 1 else end)
    requires at < |text| && at == shift + from && shift + end == LineEnd(text, at) && |text| == shift + |t|
    requires Piece(text, at, shift + end) == Piece(t, from, end)
    requires SplitFrom(text, shift + next) == SplitFrom(t, next)
    ensures SplitFrom(text, at) == SplitFrom(t, from)
  {
    SplitUnfolds(t, from, end, next);
    SplitUnfolds(text, at, shift + end, shift + next);
  }

  lemma {:induction false} SplitShifts(before: string, t: string, from: nat)
    requires from <= |t|
    ensures SplitFrom(before + t, |before| + from) == SplitFrom(t, from)
    decreases |t| - from
  {
    if from < |t| {
      var end := LineEnd(t, from);
      var next := if end < |t| then end + 1 else end;
      LineEndShifts(before, t, from);
      PieceShifts(before, t, from, end);
      SplitShifts(before, t, next);
      SameSplit(before + t, t, |before| + from, from, end, next, |before|);
    }
  }

  lemma FirstLineSplits(line: string, rest: string)
    requires '\n' !in line
    ensures SplitFrom(line + ("\n" + rest), 0) == (if line == "" then [] else [line]) + SplitFrom(rest, 0)
  {
    var text := line + ("\n" + rest);
    assert text[0..|line|] == line && text[|line|] == '\n';
    LineEndIs(text, 0, |line|);
    assert text == (line + "\n") + rest;
    SplitShifts(line + "\n", rest, 0);
  }

  lemma LastLineSplits(last: string)
    requires '\n' !in last
    ensures SplitFrom(last, 0) == if last == "" then [] else [last]
  {
    assert last[0..|last|] == last;
    LineEndIs(last, 0, |last|);
  }

  /** Splitting finds the lines that are not empty, the one behind the last newline included. */
  lemma {:induction false} TextSplits(lines: seq<string>, last: string)
    requires '\n' !in last && forall i :: 0 <= i < |lines| ==> '\n' !in lines[i]
    ensures SplitFrom(Text(lines, last), 0) == NonEmpty(lines + [last])
  {
    if lines == [] {
      LastLineSplits(last);
      assert lines + [last] == [last];
    } else {
      TextSplits(lines[1..], last);
      FirstLineSplits(lines[0], Text(lines[1..], last));
      assert (lines + [last])[1..] == lines[1..] + [last];
    }
  }

  /** Every text is of that form. */
  lemma {:induction false} EveryTextHasLines(text: string) returns (lines: seq<string>, last: string)
    ensures '\n' !in last && forall i :: 0 <= i < |lines| ==> '\n' !in lines[i]
    ensures text == Text(lines, last)
  {
    var end := LineEnd(text, 0);
    if end < |text| {
      var more;
      more, last := EveryTextHasLines(text[end + 1..]);
      lines := [text[..end]] + more;
      assert text == text[..end] + ("\n" + text[end + 1..]);
      assert text[0..end] == text[..end];
    } else {
      assert text[0..end] == text;
      lines, last := [], text;
    }
  }

  /** Line i is the first one that does not parse. */
  ghost predicate FailsFirst(lines: seq<string>, blobSize: nat, i: nat, error: FrameSourceError) {
    && i < |lines| && ParseLine(lines[i], blobSize) == Failure(error)
    && forall j :: 0 <= j < i ==> ParseLine(lines[j], blobSize).Success?
  }

  lemma FailsLater(lines: seq<string>, blobSize: nat, i: nat, error: FrameSourceError)
    requires lines != [] && ParseLine(lines[0], blobSize).Success? && FailsFirst(lines[1..], blobSize, i, error)
    ensures FailsFirst(lines, blobSize, i + 1, error)
  {
    forall j | 0 <= j < i + 1 ensures ParseLine(lines[j], blobSize).Success? {
      assert j > 0 ==> lines[j] == lines[1..][j - 1];
    }
  }

  lemma {:induction false} FirstFailureIsReported(lines: seq<string>, blobSize: nat)
    requires ParseAll(lines, blobSize).Failure?
    ensures exists i :: FailsFirst(lines, blobSize, i, ParseAll(lines, blobSize).error)
  {
    if ParseLine(lines[0], blobSize).Success? {
      FirstFailureIsReported(lines[1..], blobSize);
      var error := ParseAll(lines[1..], blobSize).error;
      var i :| FailsFirst(lines[1..], blobSize, i, error);
      FailsLater(lines, blobSize, i, error);
    } else {
      assert FailsFirst(lines, blobSize, 0, ParseAll(lines, blobSize).error);
    }
  }

  lemma {:induction false} AllLinesParse(lines: seq<string>, blobSize: nat)
    requires ParseAll(lines, blobSize).Success?
    ensures var entries := ParseAll(lines, blobSize).value;
      && |entries| == |lines|
      && forall i :: 0 <= i < |lines| ==> ParseLine(lines[i], blobSize) == Success(entries[i])
  {
    if lines != [] {
      AllLinesParse(lines[1..], blobSize);
    }
  }

  ghost predicate IsDescribed(line: string, blobSize: nat) {
    exists e :: Describes(line, blobSize, e)
  }

  /** What the loader makes of any text: with every non-empty line describing an entry, those entries in
      order; and otherwise an error that names the first line that does not. */
  lemma LoadIsExact(lines: seq<string>, last: string, blob: seq<byte>)
    requires '\n' !in last && forall i :: 0 <= i < |lines| ==> '\n' !in lines[i]
    ensures var kept := NonEmpty(lines + [last]);
      match LoadEntries(Text(lines, last), blob)
      case Success(entries) =>
        |entries| == |kept| && forall i :: 0 <= i < |kept| ==> Describes(kept[i], |blob|, entries[i])
      case Failure(error) =>
        exists i :: 0 <= i < |kept| && error == CorruptIndex(kept[i]) && !IsDescribed(kept[i], |blob|)
                    && forall j :: 0 <= j < i ==> IsDescribed(kept[j], |blob|)
  {
    var kept := NonEmpty(lines + [last]);
    TextSplits(lines, last);
    if ParseAll(kept, |blob|).Success? {
      AllLinesParse(kept, |blob|);
      forall i | 0 <= i < |kept| ensures Describes(kept[i], |blob|, ParseAll(kept, |blob|).value[i]) {
        ParsedLineIsExact(kept[i], |blob|, ParseAll(kept, |blob|).value[i]);
      }
    } else {
      FirstFailureIsReported(kept, |blob|);
      var i: nat :| FailsFirst(kept, |blob|, i, ParseAll(kept, |blob|).error);
      LineIsRefused(kept[i], |blob|, ParseAll(kept, |blob|).error);
      forall j | 0 <= j < i ensures IsDescribed(kept[j], |blob|) {
        ParsedLineIsExact(kept[j], |blob|, ParseLine(kept[j], |blob|).value);
      }
    }
  }

  lemma LineIsRefused(line: string, blobSize: nat, error: FrameSourceError)
    requires ParseLine(line, blobSize) == Failure(error)
    ensures error == CorruptIndex(line) && !IsDescribed(line, blobSize)
  {
    forall e ensures !Describes(line, blobSize, e) {
      ParsedLineIsExact(line, blobSize, e);
    }
  }

  // ---------------------------------------------------------------- replay

  /** Replay gives every frame its bytes, and every frame the session that was asked for, if one was. */
  lemma ReplayKeepsFrames(frames: seq<CapturedFrame>, session: string)
    requires IsRecordable(frames) && forall f :: f in frames ==> IsReplayable(f)
    ensures var loaded := LoadEntries(Index(frames), Blob(frames));
      && loaded.Success? && AllInside(loaded.value, Blob(frames))
      && var replayed := Replayed(loaded.value, Blob(frames), session);
      && |replayed| == |frames|
      && forall i :: 0 <= i < |frames| ==>
           replayed[i] == if session == "" then frames[i] else frames[i].(sessionId := session)
  {
    IndexReadsBack(frames);
    EntriesReplay(frames);
    var entries, blob := Entries(frames), Blob(frames);
    forall i | 0 <= i < |frames|
      ensures FrameOf(entries[i], blob, session) ==
        if session == "" then frames[i] else frames[i].(sessionId := session)
    {
      EntryReplays(frames, i);
    }
  }
}
