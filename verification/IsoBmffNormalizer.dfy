/** The normaliser as the service runs it: a walk that rewrites the byte array it is reading. */
module IsoBmffNormalizer {
  import opened Outcomes
  import opened IsoBmff

  method WriteBe32(bytes: array<byte>, at: nat, value: nat)
    requires at + 4 <= bytes.Length && value < 0x1_0000_0000
    modifies bytes
    ensures Be32(bytes[at], bytes[at + 1], bytes[at + 2], bytes[at + 3]) == value
    ensures forall i :: 0 <= i < bytes.Length && !(at <= i < at + 4) ==> bytes[i] == old(bytes[i])
  {
    Be32Parts(value);
    bytes[at] := value / 0x100_0000 % 0x100;
    bytes[at + 1] := value / 0x1_0000 % 0x100;
    bytes[at + 2] := value / 0x100 % 0x100;
    bytes[at + 3] := value % 0x100;
  }

  lemma Be32IsInjective(a: byte, b: byte, c: byte, d: byte, a': byte, b': byte, c': byte, d': byte)
    requires Be32(a, b, c, d) == Be32(a', b', c', d')
    ensures a == a' && b == b' && c == c' && d == d'
  {
  }

  method SetToZero(bytes: array<byte>, at: nat, count: nat)
    requires at + count <= bytes.Length
    modifies bytes
    ensures forall i :: 0 <= i < bytes.Length ==> bytes[i] == if at <= i < at + count then 0 else old(bytes[i])
  {
    forall i | at <= i < at + count {
      bytes[i] := 0;
    }
  }

  /** The walk over [start, end) of s has come to offset: rewritten behind, original ahead. */
  ghost predicate WalkedTo(s: seq<byte>, now: seq<byte>, start: nat, end: nat, offset: nat)
    requires start <= end <= |s|
  {
    && |now| == |s|
    && start <= offset <= end
    && (forall i :: offset <= i < |s| ==> now[i] == s[i])
    && (forall i :: 0 <= i < offset ==> now[i] == Patched(s, DateByte(s, start, end, i), i))
    && (forall i :: offset <= i < |s| ==> DateByte(s, start, end, i) == DateByte(s, offset, end, i))
  }

  method NormalizeBoxes(container: array<byte>, start: nat, end: nat)
    requires start <= end <= container.Length
    modifies container
    ensures container[..] == PatchBoxes(old(container[..]), start, end)
    decreases end - start, 1
  {
    ghost var s := container[..];
    var offset := start;
    while offset + BOX_HEADER_SIZE <= end
      invariant WalkedTo(s, container[..], start, end, offset)
    {
      var size := Be32(container[offset], container[offset + 1], container[offset + 2], container[offset + 3]);
      HeaderIsOriginal(s, container[..], start, end, offset);
      if size < BOX_HEADER_SIZE || offset + size > end {
        WalkIsOver(s, container[..], start, end, offset);
        return;
      }
      var next := offset + size;
      ghost var before := container[..];
      NormalizeBox(container, offset, next);
      WalkStep(s, before, container[..], start, end, offset, next);
      offset := next;
    }
    WalkIsOver(s, container[..], start, end, offset);
  }

  lemma HeaderIsOriginal(s: seq<byte>, now: seq<byte>, start: nat, end: nat, offset: nat)
    requires start <= end <= |s| && WalkedTo(s, now, start, end, offset) && offset + BOX_HEADER_SIZE <= end
    ensures ReadBe32(now, offset) == ReadBe32(s, offset)
  {
  }

  lemma WalkIsOver(s: seq<byte>, now: seq<byte>, start: nat, end: nat, offset: nat)
    requires start <= end <= |s| && WalkedTo(s, now, start, end, offset)
    requires || offset + BOX_HEADER_SIZE > end
             || ReadBe32(s, offset) < BOX_HEADER_SIZE
             || offset + ReadBe32(s, offset) > end
    ensures now == PatchBoxes(s, start, end)
  {
    forall i | 0 <= i < |s| ensures now[i] == Patched(s, DateByte(s, start, end, i), i) {
      if offset <= i {
        assert DateByte(s, start, end, i) == DateByte(s, offset, end, i);
      }
    }
  }

  lemma SameBoxDates(before: seq<byte>, s: seq<byte>, offset: nat, next: nat, i: nat)
    requires offset + BOX_HEADER_SIZE <= next <= |s| && |before| == |s|
    requires forall j :: offset <= j < |s| ==> before[j] == s[j]
    ensures BoxDateByte(before, offset, next, i) == BoxDateByte(s, offset, next, i)
  {
    BoxWalkIsLocal(before, 0, s, offset, next, i);
  }

  /** One turn of the loop: the box is read from original bytes, so it is rewritten as planned. */
  lemma WalkStep(s: seq<byte>, before: seq<byte>, after: seq<byte>, start: nat, end: nat, offset: nat, next: nat)
    requires start <= end <= |s| && WalkedTo(s, before, start, end, offset)
    requires offset + BOX_HEADER_SIZE <= next <= end && next == offset + ReadBe32(s, offset)
    requires after == PatchBox(before, offset, next)
    ensures WalkedTo(s, after, start, end, next)
  {
    forall i | 0 <= i < |s|
      ensures i < next ==> after[i] == Patched(s, DateByte(s, start, end, i), i)
      ensures i >= next ==> after[i] == s[i] && DateByte(s, start, end, i) == DateByte(s, next, end, i)
    {
      SameBoxDates(before, s, offset, next, i);
      assert after[i] == Patched(before, BoxDateByte(before, offset, next, i), i);
      if offset <= i {
        assert DateByte(s, start, end, i) == DateByte(s, offset, end, i);
      }
    }
  }

  method NormalizeBox(container: array<byte>, start: nat, end: nat)
    requires start + BOX_HEADER_SIZE <= end <= container.Length
    modifies container
    ensures container[..] == PatchBox(old(container[..]), start, end)
    decreases end - start, 0
  {
    ghost var s := container[..];
    var t := FourCC(container[start + 4], container[start + 5], container[start + 6], container[start + 7]);
    assert t == TypeAt(s, start + SIZE_FIELD_SIZE);
    if IsContainer(t) {
      NormalizeBoxes(container, start + BOX_HEADER_SIZE, end);
      assert container[..] == PatchBox(s, start, end);
      return;
    }
    if !HasDateFields(t) {
      assert container[..] == PatchBox(s, start, end);
      return;
    }
    RewriteDates(container, start, end);
    assert container[..] == PatchBox(s, start, end);
  }

  /** The end of NormalizeBox, once the box is known to have dates. */
  method RewriteDates(container: array<byte>, start: nat, end: nat)
    requires start + BOX_HEADER_SIZE <= end <= container.Length
    modifies container
    ensures forall i :: 0 <= i < container.Length ==>
      container[i] == Patched(old(container[..]), FieldByte(old(container[..]), start, end, i), i)
  {
    ghost var s := container[..];
    if start + BOX_HEADER_SIZE + SIZE_FIELD_SIZE > end {
      return;
    }
    var version := container[start + BOX_HEADER_SIZE];
    var width := if version == 1 then 8 else 4;
    assert width == FieldWidth(s, start);
    var firstField := start + BOX_HEADER_SIZE + SIZE_FIELD_SIZE;
    var secondField := firstField + width;
    if secondField + width > end {
      return;
    }
    if width == 4 {
      WriteBe32(container, firstField, NORMALIZED_TIMESTAMP);
      WriteBe32(container, secondField, NORMALIZED_TIMESTAMP);
      Be32IsInjective(container[firstField], container[firstField + 1], container[firstField + 2],
                      container[firstField + 3], 0x2D, 0, 0, 0);
      Be32IsInjective(container[secondField], container[secondField + 1], container[secondField + 2],
                      container[secondField + 3], 0x2D, 0, 0, 0);
    } else {
      SetToZero(container, firstField, width);
      SetToZero(container, secondField, width);
    }
  }

  method NormalizeIsoBmffTimestamps(container: array<byte>)
    modifies container
    ensures container[..] == Normalize(old(container[..]))
  {
    if container.Length < BOX_HEADER_SIZE {
      return;
    }
    var t := FourCC(container[4], container[5], container[6], container[7]);
    if !IsPlausibleFirstType(t) {
      return;
    }
    NormalizeBoxes(container, 0, container.Length);
  }
}
