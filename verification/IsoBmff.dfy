/** Rewriting the date fields of an ISO base media file in place (ISO/IEC 14496-12, sections 4.2,
    8.2.2, 8.3.2 and 8.4.2). `DateByte` says, from the original bytes alone, which positions the walk
    rewrites and to what; the in-place methods of IsoBmffNormalizer are proved against it. */
module IsoBmff {
  import opened Outcomes

  const BOX_HEADER_SIZE: nat := 8
  const SIZE_FIELD_SIZE: nat := 4

  /** Stands in for a 32-bit date; its bytes are 0x2D, 0, 0, 0. */
  const NORMALIZED_TIMESTAMP: int := 0x2D000000

  datatype FourCC = FourCC(a: byte, b: byte, c: byte, d: byte)

  const MOOV := FourCC(0x6D, 0x6F, 0x6F, 0x76)
  const TRAK := FourCC(0x74, 0x72, 0x61, 0x6B)
  const MDIA := FourCC(0x6D, 0x64, 0x69, 0x61)
  const EDTS := FourCC(0x65, 0x64, 0x74, 0x73)
  const MINF := FourCC(0x6D, 0x69, 0x6E, 0x66)
  const MVHD := FourCC(0x6D, 0x76, 0x68, 0x64)
  const TKHD := FourCC(0x74, 0x6B, 0x68, 0x64)
  const MDHD := FourCC(0x6D, 0x64, 0x68, 0x64)
  const FTYP := FourCC(0x66, 0x74, 0x79, 0x70)
  const STYP := FourCC(0x73, 0x74, 0x79, 0x70)
  const FREE := FourCC(0x66, 0x72, 0x65, 0x65)
  const SKIP := FourCC(0x73, 0x6B, 0x69, 0x70)
  const WIDE := FourCC(0x77, 0x69, 0x64, 0x65)

  function Be32(a: byte, b: byte, c: byte, d: byte): nat {
    a * 0x100_0000 + b * 0x1_0000 + c * 0x100 + d
  }

  function ReadBe32(s: seq<byte>, at: nat): nat
    requires at + 4 <= |s|
  {
    Be32(s[at], s[at + 1], s[at + 2], s[at + 3])
  }

  /** Four bytes of a number, read back. */
  lemma Be32Parts(n: nat)
    requires n < 0x1_0000_0000
    ensures Be32(n / 0x100_0000 % 0x100, n / 0x1_0000 % 0x100, n / 0x100 % 0x100, n % 0x100) == n
  {
    var a := n / 0x100;
    var b := a / 0x100;
    assert n / 0x1_0000 == b;
    assert n / 0x100_0000 == b / 0x100;
    assert b / 0x100 < 0x100;
  }

  function TypeAt(s: seq<byte>, at: nat): FourCC
    requires at + 4 <= |s|
  {
    FourCC(s[at], s[at + 1], s[at + 2], s[at + 3])
  }

  /** Only these have their children walked. */
  predicate IsContainer(t: FourCC) {
    t == MOOV || t == TRAK || t == MDIA || t == EDTS || t == MINF
  }

  predicate HasDateFields(t: FourCC) {
    t == MVHD || t == TKHD || t == MDHD
  }

  predicate IsPlausibleFirstType(t: FourCC) {
    t == FTYP || t == MOOV || t == STYP || t == FREE || t == SKIP || t == WIDE
  }

  // ------------------------------------------------- what the walk rewrites

  /** Width of each of the two date fields that follow version and flags. */
  function FieldWidth(s: seq<byte>, start: nat): nat
    requires start + BOX_HEADER_SIZE < |s|
  {
    if s[start + BOX_HEADER_SIZE] == 1 then 8 else 4
  }

  predicate HasRoomForDates(s: seq<byte>, start: nat, end: nat)
    requires end <= |s|
  {
    start + BOX_HEADER_SIZE + SIZE_FIELD_SIZE <= end
    && start + BOX_HEADER_SIZE + SIZE_FIELD_SIZE + 2 * FieldWidth(s, start) <= end
  }

  /** The byte that date field position i of the box at [start, end) is set to: 64-bit dates become
      zero, 32-bit dates the sentinel. */
  function FieldByte(s: seq<byte>, start: nat, end: nat, i: nat): (r: Option<byte>)
    requires end <= |s|
    ensures r.Some? ==> start + 12 <= i < end
  {
    if !HasRoomForDates(s, start, end) then None
    else
      var first, width := start + BOX_HEADER_SIZE + SIZE_FIELD_SIZE, FieldWidth(s, start);
      if !(first <= i < first + 2 * width) then None
      else if width == 4 && (i - first) % 4 == 0 then Some(0x2D)
      else Some(0)
  }

  /** What the walk over the boxes of [start, end) sets position i to, if anything. */
  function DateByte(s: seq<byte>, start: nat, end: nat, i: nat): (r: Option<byte>)
    requires start <= end <= |s|
    ensures r.Some? ==> start + 12 <= i < end
    decreases end - start, 1
  {
    if start + BOX_HEADER_SIZE > end then None
    else
      var size := ReadBe32(s, start);
      if size < BOX_HEADER_SIZE || start + size > end then None
      else if i < start + size then BoxDateByte(s, start, start + size, i)
      else DateByte(s, start + size, end, i)
  }

  function BoxDateByte(s: seq<byte>, start: nat, end: nat, i: nat): (r: Option<byte>)
    requires start + BOX_HEADER_SIZE <= end <= |s|
    ensures r.Some? ==> start + 12 <= i < end
    decreases end - start, 0
  {
    var t := TypeAt(s, start + SIZE_FIELD_SIZE);
    if IsContainer(t) then DateByte(s, start + BOX_HEADER_SIZE, end, i)
    else if !HasDateFields(t) then None
    else FieldByte(s, start, end, i)
  }

  function Patched(s: seq<byte>, r: Option<byte>, i: nat): byte
    requires i < |s|
  {
    match r case None => s[i] case Some(b) => b
  }

  function PatchBoxes(s: seq<byte>, start: nat, end: nat): (r: seq<byte>)
    requires start <= end <= |s|
    ensures |r| == |s|
    ensures forall i :: 0 <= i < |s| ==> r[i] == Patched(s, DateByte(s, start, end, i), i)
  {
    seq(|s|, i requires 0 <= i < |s| => Patched(s, DateByte(s, start, end, i), i))
  }

  function PatchBox(s: seq<byte>, start: nat, end: nat): (r: seq<byte>)
    requires start + BOX_HEADER_SIZE <= end <= |s|
    ensures |r| == |s|
    ensures forall i :: 0 <= i < |s| ==> r[i] == Patched(s, BoxDateByte(s, start, end, i), i)
  {
    seq(|s|, i requires 0 <= i < |s| => Patched(s, BoxDateByte(s, start, end, i), i))
  }

  /** A container is touched only when it begins with a box type that can come first. */
  predicate IsPlausible(s: seq<byte>) {
    |s| >= BOX_HEADER_SIZE && IsPlausibleFirstType(TypeAt(s, SIZE_FIELD_SIZE))
  }

  function Normalize(s: seq<byte>): (r: seq<byte>)
    ensures |r| == |s|
  {
    if IsPlausible(s) then PatchBoxes(s, 0, |s|) else s
  }

  // ------------------------------------------------ box types by their bytes

  /** moov, trak, mdia, edts, minf: the only boxes whose children are looked at. */
  predicate NamesContainer(name: seq<byte>) {
    || name == [0x6D, 0x6F, 0x6F, 0x76] || name == [0x74, 0x72, 0x61, 0x6B] || name == [0x6D, 0x64, 0x69, 0x61]
    || name == [0x65, 0x64, 0x74, 0x73] || name == [0x6D, 0x69, 0x6E, 0x66]
  }

  /** mvhd, tkhd, mdhd: the boxes with dates. */
  predicate NamesDateBox(name: seq<byte>) {
    || name == [0x6D, 0x76, 0x68, 0x64] || name == [0x74, 0x6B, 0x68, 0x64] || name == [0x6D, 0x64, 0x68, 0x64]
  }

  /** ftyp, moov, styp, free, skip, wide: what a container may begin with. */
  predicate NamesFirstBox(name: seq<byte>) {
    || name == [0x66, 0x74, 0x79, 0x70] || name == [0x6D, 0x6F, 0x6F, 0x76] || name == [0x73, 0x74, 0x79, 0x70]
    || name == [0x66, 0x72, 0x65, 0x65] || name == [0x73, 0x6B, 0x69, 0x70] || name == [0x77, 0x69, 0x64, 0x65]
  }

  /** The tests of the code look for these bytes and no others. */
  lemma TypesAreTheirBytes(s: seq<byte>, at: nat)
    requires at + 4 <= |s|
    ensures IsContainer(TypeAt(s, at)) <==> NamesContainer(s[at..at + 4])
    ensures HasDateFields(TypeAt(s, at)) <==> NamesDateBox(s[at..at + 4])
    ensures IsPlausibleFirstType(TypeAt(s, at)) <==> NamesFirstBox(s[at..at + 4])
  {
    assert s[at..at + 4] == [s[at], s[at + 1], s[at + 2], s[at + 3]];
  }

  // --------------------------------------- the boxes that hold those fields

  /** [b, e) is a box that the walk over [start, end) meets, at any depth. */
  ghost predicate MeetsBox(s: seq<byte>, start: nat, end: nat, b: nat, e: nat)
    requires start <= end <= |s|
    decreases end - start
  {
    start + BOX_HEADER_SIZE <= end &&
    var size := ReadBe32(s, start);
    BOX_HEADER_SIZE <= size && start + size <= end &&
    ( || (b == start && e == start + size)
      || (NamesContainer(s[start + 4..start + 8]) && MeetsBox(s, start + BOX_HEADER_SIZE, start + size, b, e))
      || MeetsBox(s, start + size, end, b, e))
  }

  lemma {:induction false} MetBoxIsInside(s: seq<byte>, start: nat, end: nat, b: nat, e: nat)
    requires start <= end <= |s| && MeetsBox(s, start, end, b, e)
    ensures start <= b && b + BOX_HEADER_SIZE <= e <= end
    decreases end - start
  {
    var size := ReadBe32(s, start);
    if b == start && e == start + size {
    } else if
      && NamesContainer(s[start + 4..start + 8])
      && MeetsBox(s, start + BOX_HEADER_SIZE, start + size, b, e)
    {
      MetBoxIsInside(s, start + BOX_HEADER_SIZE, start + size, b, e);
    } else {
      MetBoxIsInside(s, start + size, end, b, e);
    }
  }

  /** A date box that the walk meets, and in whose date fields position i lies: after version and flags,
      sixteen bytes to be zero in version 1, else eight, which 0x2D stands at the front of each half of. */
  ghost predicate DatesLieAt(s: seq<byte>, start: nat, end: nat, b: nat, e: nat, i: nat, value: byte)
    requires start <= end <= |s|
  {
    && MeetsBox(s, start, end, b, e)
    && b + 12 <= e <= |s|
    && NamesDateBox(s[b + 4..b + 8])
    && if s[b + 8] == 1 then b + 28 <= e && b + 12 <= i < b + 28 && value == 0
       else b + 20 <= e && b + 12 <= i < b + 20 && value == if i == b + 12 || i == b + 16 then 0x2D else 0
  }

  lemma DatesOfBox(s: seq<byte>, b: nat, e: nat, i: nat, value: byte)
    requires b + BOX_HEADER_SIZE <= e <= |s|
    ensures FieldByte(s, b, e, i) == Some(value) <==>
      && b + 12 <= e
      && if s[b + 8] == 1 then b + 28 <= e && b + 12 <= i < b + 28 && value == 0
         else b + 20 <= e && b + 12 <= i < b + 20 && value == if i == b + 12 || i == b + 16 then 0x2D else 0
  {
  }

  lemma {:induction false} RewrittenLiesInADateBox(s: seq<byte>, start: nat, end: nat, i: nat, value: byte)
    returns (b: nat, e: nat)
    requires start <= end <= |s| && DateByte(s, start, end, i) == Some(value)
    ensures DatesLieAt(s, start, end, b, e, i, value)
    decreases end - start
  {
    var next := start + ReadBe32(s, start);
    TypesAreTheirBytes(s, start + SIZE_FIELD_SIZE);
    if i >= next {
      b, e := RewrittenLiesInADateBox(s, next, end, i, value);
    } else {
      assert BoxDateByte(s, start, next, i) == Some(value);
      if IsContainer(TypeAt(s, start + SIZE_FIELD_SIZE)) {
        b, e := RewrittenLiesInADateBox(s, start + BOX_HEADER_SIZE, next, i, value);
      } else {
        b, e := start, next;
        DatesOfBox(s, b, e, i, value);
      }
    }
  }

  lemma NoContainerHasDates(name: seq<byte>)
    requires NamesDateBox(name)
    ensures !NamesContainer(name)
  {
    assert name[0] == 0x6D || name[0] == 0x74;
    assert name[1] == 0x76 || name[1] == 0x6B || name[1] == 0x64;
    assert name[2] == 0x68;
  }

  lemma OwnDatesAreRewritten(s: seq<byte>, b: nat, e: nat, i: nat, value: byte)
    requires b + BOX_HEADER_SIZE <= e <= |s| && NamesDateBox(s[b + 4..b + 8])
    requires FieldByte(s, b, e, i) == Some(value)
    ensures BoxDateByte(s, b, e, i) == Some(value)
  {
    TypesAreTheirBytes(s, b + SIZE_FIELD_SIZE);
    NoContainerHasDates(s[b + 4..b + 8]);
  }

  lemma {:induction false} DatesOfMetBoxAreRewritten(s: seq<byte>, start: nat, end: nat, b: nat, e: nat, i: nat,
                                                     value: byte)
    requires start <= end <= |s| && DatesLieAt(s, start, end, b, e, i, value)
    ensures DateByte(s, start, end, i) == Some(value)
    decreases end - start
  {
    var next := start + ReadBe32(s, start);
    TypesAreTheirBytes(s, start + SIZE_FIELD_SIZE);
    if b == start && e == next {
      DatesOfBox(s, b, e, i, value);
      OwnDatesAreRewritten(s, b, e, i, value);
    } else if NamesContainer(s[start + 4..start + 8]) && MeetsBox(s, start + BOX_HEADER_SIZE, next, b, e) {
      MetBoxIsInside(s, start + BOX_HEADER_SIZE, next, b, e);
      DatesOfMetBoxAreRewritten(s, start + BOX_HEADER_SIZE, next, b, e, i, value);
      assert BoxDateByte(s, start, next, i) == Some(value);
    } else {
      MetBoxIsInside(s, next, end, b, e);
      DatesOfMetBoxAreRewritten(s, next, end, b, e, i, value);
    }
  }

  /** Position i is rewritten to value exactly when it lies in the date fields of an mvhd, tkhd or mdhd
      box that is reached through moov, trak, mdia, edts and minf boxes. */
  lemma DateByteIsInADateBox(s: seq<byte>, start: nat, end: nat, i: nat, value: byte)
    requires start <= end <= |s|
    ensures DateByte(s, start, end, i) == Some(value) <==> exists b, e :: DatesLieAt(s, start, end, b, e, i, value)
  {
    if DateByte(s, start, end, i) == Some(value) {
      var b, e := RewrittenLiesInADateBox(s, start, end, i, value);
    }
    if b, e :| DatesLieAt(s, start, end, b, e, i, value) {
      DatesOfMetBoxAreRewritten(s, start, end, b, e, i, value);
    }
  }

  /** What the normaliser does to every byte of every input: in a container of eight bytes or more whose
      first box has one of the six types, the dates that the walk from its first to its last byte meets
      are rewritten; no other byte is touched, and no other input at all. */
  lemma NormalizeRewritesDates(s: seq<byte>, i: nat)
    requires i < |s|
    ensures forall b: nat, e: nat, value: byte ::
      |s| >= 8 && NamesFirstBox(s[4..8]) && DatesLieAt(s, 0, |s|, b, e, i, value) ==> Normalize(s)[i] == value
    ensures Normalize(s)[i] == s[i] ||
      (|s| >= 8 && NamesFirstBox(s[4..8]) &&
       exists b: nat, e: nat, value: byte :: DatesLieAt(s, 0, |s|, b, e, i, value))
  {
    if |s| >= 8 {
      TypesAreTheirBytes(s, 4);
    }
    forall b: nat, e: nat, value: byte | DatesLieAt(s, 0, |s|, b, e, i, value)
      ensures DateByte(s, 0, |s|, i) == Some(value)
    {
      DatesOfMetBoxAreRewritten(s, 0, |s|, b, e, i, value);
    }
    if DateByte(s, 0, |s|, i).Some? {
      var b, e := RewrittenLiesInADateBox(s, 0, |s|, i, DateByte(s, 0, |s|, i).value);
    }
  }

  /** The same as a whole: which inputs are walked, by their bytes 4 to 8. */
  lemma NormalizeWalksExactly(s: seq<byte>)
    ensures Normalize(s) == if |s| >= 8 && NamesFirstBox(s[4..8]) then PatchBoxes(s, 0, |s|) else s
  {
    if |s| >= 8 {
      TypesAreTheirBytes(s, 4);
    }
  }

  // ------------------------------------------------- the walk and its bytes

  /** The walk depends on nothing but the bytes it walks over, wherever they stand. */
  lemma {:induction false} WalkIsLocal(s: seq<byte>, shift: nat, t: seq<byte>, start: nat, end: nat, i: nat)
    requires start <= end <= |t| && end + shift <= |s|
    requires forall j :: start <= j < end ==> s[shift + j] == t[j]
    ensures DateByte(s, shift + start, shift + end, shift + i) == DateByte(t, start, end, i)
    decreases end - start, 1
  {
    if start + BOX_HEADER_SIZE <= end {
      SameHeader(s, shift, t, start);
      var size := ReadBe32(t, start);
      if BOX_HEADER_SIZE <= size && start + size <= end {
        BoxWalkIsLocal(s, shift, t, start, start + size, i);
        WalkIsLocal(s, shift, t, start + size, end, i);
      }
    }
  }

  lemma {:induction false} BoxWalkIsLocal(s: seq<byte>, shift: nat, t: seq<byte>, start: nat, end: nat, i: nat)
    requires start + BOX_HEADER_SIZE <= end <= |t| && end + shift <= |s|
    requires forall j :: start <= j < end ==> s[shift + j] == t[j]
    ensures BoxDateByte(s, shift + start, shift + end, shift + i) == BoxDateByte(t, start, end, i)
    decreases end - start, 0
  {
    SameHeader(s, shift, t, start);
    WalkIsLocal(s, shift, t, start + BOX_HEADER_SIZE, end, i);
    if start + 12 <= end {
      assert s[shift + (start + BOX_HEADER_SIZE)] == t[start + BOX_HEADER_SIZE];
    }
  }

  lemma SameHeader(s: seq<byte>, shift: nat, t: seq<byte>, start: nat)
    requires start + BOX_HEADER_SIZE <= |t| && shift + start + BOX_HEADER_SIZE <= |s|
    requires forall j :: start <= j < start + BOX_HEADER_SIZE ==> s[shift + j] == t[j]
    ensures ReadBe32(s, shift + start) == ReadBe32(t, start)
    ensures TypeAt(s, shift + start + SIZE_FIELD_SIZE) == TypeAt(t, start + SIZE_FIELD_SIZE)
  {
    assert s[shift + (start + 0)] == t[start] && s[shift + (start + 1)] == t[start + 1]
        && s[shift + (start + 2)] == t[start + 2] && s[shift + (start + 3)] == t[start + 3];
    assert s[shift + (start + 4)] == t[start + 4] && s[shift + (start + 5)] == t[start + 5]
        && s[shift + (start + 6)] == t[start + 6] && s[shift + (start + 7)] == t[start + 7];
  }

  /** t is s but for the positions that the walk over [start, end) of s rewrites. */
  ghost predicate DiffersOnlyInDates(s: seq<byte>, t: seq<byte>, start: nat, end: nat)
    requires start <= end <= |s|
  {
    |t| == |s| &&
    forall j {:trigger DateByte(s, start, end, j)} :: start <= j < end && DateByte(s, start, end, j).None? ==>
      t[j] == s[j]
  }

  ghost predicate BoxDiffersOnlyInDates(s: seq<byte>, t: seq<byte>, start: nat, end: nat)
    requires start + BOX_HEADER_SIZE <= end <= |s|
  {
    |t| == |s| &&
    forall j {:trigger BoxDateByte(s, start, end, j)} ::
      start <= j < end && BoxDateByte(s, start, end, j).None? ==> t[j] == s[j]
  }

  /** The walk reads structure that rewriting never touches: whatever stands in the date fields, the
      same positions are rewritten, to the same values. */
  lemma {:induction false} WalkIgnoresDates(s: seq<byte>, t: seq<byte>, start: nat, end: nat, i: nat)
    requires start <= end <= |s| && DiffersOnlyInDates(s, t, start, end)
    ensures DateByte(t, start, end, i) == DateByte(s, start, end, i)
    decreases end - start, 1
  {
    if start + BOX_HEADER_SIZE <= end {
      forall j | start <= j < start + BOX_HEADER_SIZE ensures t[j] == s[j] {
        assert DateByte(s, start, end, j).None?;
      }
      SameHeader(t, 0, s, start);
      var size := ReadBe32(s, start);
      if BOX_HEADER_SIZE <= size && start + size <= end {
        DifferencesSplit(s, t, start, end, start + size);
        WalkIgnoresDates(s, t, start + size, end, i);
        BoxWalkIgnoresDates(s, t, start, start + size, i);
      }
    }
  }

  lemma DifferencesSplit(s: seq<byte>, t: seq<byte>, start: nat, end: nat, next: nat)
    requires start + BOX_HEADER_SIZE <= next <= end <= |s| && next == start + ReadBe32(s, start)
    requires DiffersOnlyInDates(s, t, start, end)
    ensures BoxDiffersOnlyInDates(s, t, start, next) && DiffersOnlyInDates(s, t, next, end)
  {
    forall j | next <= j < end && DateByte(s, next, end, j).None? ensures t[j] == s[j] {
      assert DateByte(s, start, end, j) == DateByte(s, next, end, j);
    }
    forall j | start <= j < next && BoxDateByte(s, start, next, j).None? ensures t[j] == s[j] {
      assert DateByte(s, start, end, j) == BoxDateByte(s, start, next, j);
    }
  }

  lemma DifferencesEnter(s: seq<byte>, t: seq<byte>, start: nat, end: nat)
    requires start + BOX_HEADER_SIZE <= end <= |s| && BoxDiffersOnlyInDates(s, t, start, end)
    requires IsContainer(TypeAt(s, start + SIZE_FIELD_SIZE))
    ensures DiffersOnlyInDates(s, t, start + BOX_HEADER_SIZE, end)
  {
    forall j | start + BOX_HEADER_SIZE <= j < end && DateByte(s, start + BOX_HEADER_SIZE, end, j).None?
      ensures t[j] == s[j]
    {
      assert BoxDateByte(s, start, end, j).None?;
    }
  }

  lemma {:induction false} BoxWalkIgnoresDates(s: seq<byte>, t: seq<byte>, start: nat, end: nat, i: nat)
    requires start + BOX_HEADER_SIZE <= end <= |s| && BoxDiffersOnlyInDates(s, t, start, end)
    ensures BoxDateByte(t, start, end, i) == BoxDateByte(s, start, end, i)
    decreases end - start, 0
  {
    forall j | start <= j < start + BOX_HEADER_SIZE ensures t[j] == s[j] {
      assert BoxDateByte(s, start, end, j).None?;
    }
    SameHeader(t, 0, s, start);
    if IsContainer(TypeAt(s, start + SIZE_FIELD_SIZE)) {
      DifferencesEnter(s, t, start, end);
      WalkIgnoresDates(s, t, start + BOX_HEADER_SIZE, end, i);
    } else if start + 12 <= end {
      assert BoxDateByte(s, start, end, start + BOX_HEADER_SIZE).None?;
    }
  }

  // --------------------------------------------------------- canonical form

  /** Position i of a container is rewritten. */
  predicate IsDatePosition(s: seq<byte>, i: nat) {
    IsPlausible(s) && DateByte(s, 0, |s|, i).Some?
  }

  ghost predicate SameButForDates(s: seq<byte>, t: seq<byte>) {
    |s| == |t| && forall i :: 0 <= i < |s| && !IsDatePosition(s, i) ==> s[i] == t[i]
  }

  lemma SamePositions(s: seq<byte>, t: seq<byte>)
    requires SameButForDates(s, t)
    ensures IsPlausible(s) <==> IsPlausible(t)
    ensures IsPlausible(s) ==> forall i :: DateByte(t, 0, |t|, i) == DateByte(s, 0, |s|, i)
  {
    if |s| >= BOX_HEADER_SIZE {
      assert forall j :: 4 <= j < 8 ==> !IsDatePosition(s, j);
      assert TypeAt(s, SIZE_FIELD_SIZE) == TypeAt(t, SIZE_FIELD_SIZE);
    }
    if IsPlausible(s) {
      forall i ensures DateByte(t, 0, |t|, i) == DateByte(s, 0, |s|, i) {
        WalkIgnoresDates(s, t, 0, |s|, i);
      }
    }
  }

  /** Only date positions change. */
  lemma NormalizeChangesOnlyDates(s: seq<byte>)
    ensures SameButForDates(s, Normalize(s))
  {
  }

  lemma NormalizeTwiceIsOnce(s: seq<byte>)
    ensures Normalize(Normalize(s)) == Normalize(s)
  {
    var t := Normalize(s);
    SamePositions(s, t);
    if IsPlausible(s) {
      forall i | 0 <= i < |s| ensures Normalize(t)[i] == t[i] {
        assert t[i] == Patched(s, DateByte(s, 0, |s|, i), i);
      }
    }
  }

  /** The result is canonical: two containers normalise to the same bytes exactly when they differ in
      nothing but date positions. */
  lemma NormalizeIsCanonical(s: seq<byte>, t: seq<byte>)
    ensures Normalize(s) == Normalize(t) <==> SameButForDates(s, t)
  {
    if SameButForDates(s, t) {
      SamePositions(s, t);
      assert forall i :: 0 <= i < |s| ==> Normalize(s)[i] == Normalize(t)[i];
    }
    if Normalize(s) == Normalize(t) {
      var n := Normalize(s);
      SamePositions(s, n);
      SamePositions(t, n);
      forall i | 0 <= i < |s| && !IsDatePosition(s, i) ensures s[i] == t[i] {
        assert n[i] == s[i] && n[i] == t[i];
      }
    }
  }
}
