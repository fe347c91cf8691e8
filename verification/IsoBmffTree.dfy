/** The normaliser against the box tree it walks: on the bytes of a well-formed tree the in-place
    rewrite is a rewrite of the tree. */
module IsoBmffTree {
  import opened Outcomes
  import opened IsoBmff

  datatype Box = Branch(kind: FourCC, children: seq<Box>) | Leaf(kind: FourCC, payload: seq<byte>)

  function Be32Bytes(n: nat): seq<byte> {
    [n / 0x100_0000 % 0x100, n / 0x1_0000 % 0x100, n / 0x100 % 0x100, n % 0x100]
  }

  function Name(kind: FourCC): seq<byte> {
    [kind.a, kind.b, kind.c, kind.d]
  }

  lemma KindsAreTheirNames(kind: FourCC)
    ensures IsContainer(kind) <==> NamesContainer(Name(kind))
    ensures HasDateFields(kind) <==> NamesDateBox(Name(kind))
    ensures IsPlausibleFirstType(kind) <==> NamesFirstBox(Name(kind))
  {
    TypesAreTheirBytes(Name(kind), 0);
  }

  function Header(kind: FourCC, bodySize: nat): seq<byte> {
    Be32Bytes(8 + bodySize) + Name(kind)
  }

  function Body(box: Box): seq<byte>
    decreases box, 0
  {
    match box
    case Branch(_, children) => SerializeAll(children)
    case Leaf(_, payload) => payload
  }

  /** size(4), type(4), body. */
  function Serialize(box: Box): seq<byte>
    decreases box, 1
  {
    Header(box.kind, |Body(box)|) + Body(box)
  }

  function SerializeAll(boxes: seq<Box>): seq<byte>
    decreases boxes
  {
    if boxes == [] then [] else Serialize(boxes[0]) + SerializeAll(boxes[1..])
  }

  /** Branches are moov, trak, mdia, edts and minf boxes and leaves are not; every size fits its 32-bit field. */
  ghost predicate WellFormed(box: Box)
    decreases box, 1
  {
    && BOX_HEADER_SIZE + |Body(box)| < 0x1_0000_0000
    && match box
       case Branch(kind, children) => NamesContainer(Name(kind)) && AllWellFormed(children)
       case Leaf(kind, _) => !NamesContainer(Name(kind))
  }

  ghost predicate AllWellFormed(boxes: seq<Box>)
    decreases boxes
  {
    boxes == [] || (WellFormed(boxes[0]) && AllWellFormed(boxes[1..]))
  }

  /** Two version 0 dates are the sentinel twice; two version 1 dates are sixteen zeros. */
  function NormalDates(version: byte): seq<byte> {
    if version == 1 then seq(16, _ => 0) else [0x2D, 0, 0, 0, 0x2D, 0, 0, 0]
  }

  /** version(1), flags(3), creation and modification time, the rest. */
  function RewriteDates(payload: seq<byte>): seq<byte> {
    if |payload| < 4 || |payload| < 4 + |NormalDates(payload[0])| then payload
    else payload[..4] + NormalDates(payload[0]) + payload[4 + |NormalDates(payload[0])|..]
  }

  function Rewrite(box: Box): Box
    decreases box, 1
  {
    match box
    case Branch(kind, children) => Branch(kind, RewriteAll(children))
    case Leaf(kind, payload) => if NamesDateBox(Name(kind)) then Leaf(kind, RewriteDates(payload)) else box
  }

  function RewriteAll(boxes: seq<Box>): seq<Box>
    decreases boxes
  {
    if boxes == [] then [] else [Rewrite(boxes[0])] + RewriteAll(boxes[1..])
  }

  // -------------------------------------------------------------- the proof

  lemma HeaderReads(kind: FourCC, body: seq<byte>)
    requires BOX_HEADER_SIZE + |body| < 0x1_0000_0000
    ensures var s := Header(kind, |body|) + body;
      ReadBe32(s, 0) == |s| && TypeAt(s, SIZE_FIELD_SIZE) == kind && |s| == BOX_HEADER_SIZE + |body|
  {
    Be32Parts(BOX_HEADER_SIZE + |body|);
  }

  /** A box in front of others is patched on its own, and so are the others. */
  lemma PatchSplits(first: seq<byte>, rest: seq<byte>)
    requires |first| >= BOX_HEADER_SIZE && ReadBe32(first, 0) == |first|
    ensures PatchBoxes(first + rest, 0, |first + rest|) == PatchBox(first, 0, |first|) + PatchBoxes(rest, 0, |rest|)
  {
    var s, k := first + rest, |first|;
    forall i | 0 <= i < |s|
      ensures i < k ==> DateByte(s, 0, |s|, i) == BoxDateByte(first, 0, k, i)
      ensures i >= k ==> DateByte(s, 0, |s|, i) == DateByte(rest, 0, |rest|, i - k)
    {
      DatesSplit(first, rest, i);
    }
  }

  lemma DatesSplit(first: seq<byte>, rest: seq<byte>, i: nat)
    requires |first| >= BOX_HEADER_SIZE && ReadBe32(first, 0) == |first|
    ensures DateByte(first + rest, 0, |first + rest|, i) ==
      if i < |first| then BoxDateByte(first, 0, |first|, i) else DateByte(rest, 0, |rest|, i - |first|)
  {
    if i < |first| {
      DatesOfFirst(first, rest, i);
    } else {
      DatesOfRest(first, rest, i);
    }
  }

  lemma DatesOfFirst(first: seq<byte>, rest: seq<byte>, i: nat)
    requires |first| >= BOX_HEADER_SIZE && ReadBe32(first, 0) == |first| && i < |first|
    ensures DateByte(first + rest, 0, |first + rest|, i) == BoxDateByte(first, 0, |first|, i)
  {
    var s := first + rest;
    SameHeader(s, 0, first, 0);
    BoxWalkIsLocal(s, 0, first, 0, |first|, i);
    assert DateByte(s, 0, |s|, i) == BoxDateByte(s, 0, |first|, i);
  }

  lemma DatesOfRest(first: seq<byte>, rest: seq<byte>, i: nat)
    requires |first| >= BOX_HEADER_SIZE && ReadBe32(first, 0) == |first| && i >= |first|
    ensures DateByte(first + rest, 0, |first + rest|, i) == DateByte(rest, 0, |rest|, i - |first|)
  {
    var s := first + rest;
    SameHeader(s, 0, first, 0);
    WalkIsLocal(s, |first|, rest, 0, |rest|, i - |first|);
    assert DateByte(s, 0, |s|, i) == DateByte(s, |first|, |s|, i);
  }

  /** A container keeps its header; its body is patched as boxes. */
  lemma PatchEntersContainer(kind: FourCC, body: seq<byte>)
    requires BOX_HEADER_SIZE + |body| < 0x1_0000_0000 && IsContainer(kind)
    ensures var s := Header(kind, |body|) + body;
      |s| >= BOX_HEADER_SIZE && PatchBox(s, 0, |s|) == Header(kind, |body|) + PatchBoxes(body, 0, |body|)
  {
    var s := Header(kind, |body|) + body;
    HeaderReads(kind, body);
    var after := Header(kind, |body|) + PatchBoxes(body, 0, |body|);
    forall i | 0 <= i < |s| ensures PatchBox(s, 0, |s|)[i] == after[i] {
      if i >= BOX_HEADER_SIZE {
        DatesOfBody(Header(kind, |body|), body, i - BOX_HEADER_SIZE);
        assert BoxDateByte(s, 0, |s|, i) == DateByte(s, BOX_HEADER_SIZE, |s|, i);
      }
    }
    assert PatchBox(s, 0, |s|) == after;
  }

  lemma DatesOfBody(header: seq<byte>, body: seq<byte>, i: nat)
    requires |header| == BOX_HEADER_SIZE
    ensures DateByte(header + body, BOX_HEADER_SIZE, |header + body|, BOX_HEADER_SIZE + i)
            == DateByte(body, 0, |body|, i)
  {
    WalkIsLocal(header + body, BOX_HEADER_SIZE, body, 0, |body|, i);
  }

  lemma PatchRewritesDates(kind: FourCC, payload: seq<byte>)
    requires BOX_HEADER_SIZE + |payload| < 0x1_0000_0000 && HasDateFields(kind)
    ensures var s := Header(kind, |payload|) + payload;
      |s| >= BOX_HEADER_SIZE && PatchBox(s, 0, |s|) == Header(kind, |payload|) + RewriteDates(payload)
  {
    var s := Header(kind, |payload|) + payload;
    HeaderReads(kind, payload);
    forall i | 0 <= i < |s|
      ensures Patched(s, BoxDateByte(s, 0, |s|, i), i) == (Header(kind, |payload|) + RewriteDates(payload))[i]
    {
      assert BoxDateByte(s, 0, |s|, i) == FieldByte(s, 0, |s|, i);
      if i >= BOX_HEADER_SIZE {
        PatchedDate(Header(kind, |payload|), payload, i - BOX_HEADER_SIZE);
      }
    }
  }

  lemma PatchedDate(header: seq<byte>, payload: seq<byte>, k: nat)
    requires |header| == BOX_HEADER_SIZE && k < |payload|
    ensures var s := header + payload;
      Patched(s, FieldByte(s, 0, |s|, BOX_HEADER_SIZE + k), BOX_HEADER_SIZE + k) == RewriteDates(payload)[k]
  {
    var s := header + payload;
    assert s[BOX_HEADER_SIZE] == payload[0] && s[BOX_HEADER_SIZE + k] == payload[k];
  }

  lemma PatchLeavesOthers(kind: FourCC, payload: seq<byte>)
    requires BOX_HEADER_SIZE + |payload| < 0x1_0000_0000 && !HasDateFields(kind) && !IsContainer(kind)
    ensures var s := Header(kind, |payload|) + payload;
      |s| >= BOX_HEADER_SIZE && PatchBox(s, 0, |s|) == s
  {
    HeaderReads(kind, payload);
  }

  /** Rewriting dates moves nothing: a tree and its rewrite serialise to the same length. */
  lemma {:induction false} RewriteKeepsSize(box: Box)
    ensures |Body(Rewrite(box))| == |Body(box)| && Rewrite(box).kind == box.kind
    decreases box, 1
  {
    if box.Branch? {
      RewriteAllKeepsSize(box.children);
    }
  }

  lemma {:induction false} RewriteAllKeepsSize(boxes: seq<Box>)
    ensures |SerializeAll(RewriteAll(boxes))| == |SerializeAll(boxes)|
    decreases boxes
  {
    if boxes != [] {
      RewriteKeepsSize(boxes[0]);
      RewriteAllKeepsSize(boxes[1..]);
      assert RewriteAll(boxes)[1..] == RewriteAll(boxes[1..]);
    }
  }

  lemma {:induction false} PatchIsRewrite(box: Box)
    requires WellFormed(box)
    ensures |Serialize(box)| >= BOX_HEADER_SIZE && ReadBe32(Serialize(box), 0) == |Serialize(box)|
    ensures PatchBox(Serialize(box), 0, |Serialize(box)|) == Serialize(Rewrite(box))
    decreases box, 1
  {
    HeaderReads(box.kind, Body(box));
    RewriteKeepsSize(box);
    KindsAreTheirNames(box.kind);
    match box
    case Branch(kind, children) =>
      PatchAllIsRewriteAll(children);
      PatchEntersContainer(kind, Body(box));
    case Leaf(kind, payload) =>
      if HasDateFields(kind) {
        PatchRewritesDates(kind, payload);
      } else {
        PatchLeavesOthers(kind, payload);
      }
  }

  lemma {:induction false} PatchAllIsRewriteAll(boxes: seq<Box>)
    requires AllWellFormed(boxes)
    ensures PatchBoxes(SerializeAll(boxes), 0, |SerializeAll(boxes)|) == SerializeAll(RewriteAll(boxes))
    decreases boxes
  {
    if boxes == [] {
      assert PatchBoxes([], 0, 0) == [];
    } else {
      PatchIsRewrite(boxes[0]);
      PatchAllIsRewriteAll(boxes[1..]);
      PatchSplits(Serialize(boxes[0]), SerializeAll(boxes[1..]));
      assert RewriteAll(boxes)[1..] == RewriteAll(boxes[1..]);
    }
  }

  /** On the bytes of a well-formed tree the normaliser rewrites the tree, if its first box is an ftyp, moov,
      styp, free, skip or wide box; any other container it returns as it is. */
  lemma NormalizeIsTreeRewrite(boxes: seq<Box>)
    requires AllWellFormed(boxes)
    ensures Normalize(SerializeAll(boxes)) ==
      if boxes != [] && NamesFirstBox(Name(boxes[0].kind)) then SerializeAll(RewriteAll(boxes))
      else SerializeAll(boxes)
  {
    PatchAllIsRewriteAll(boxes);
    if boxes != [] {
      var first, s := Serialize(boxes[0]), SerializeAll(boxes);
      HeaderReads(boxes[0].kind, Body(boxes[0]));
      KindsAreTheirNames(boxes[0].kind);
      assert TypeAt(s, SIZE_FIELD_SIZE) == TypeAt(first, SIZE_FIELD_SIZE);
    }
  }
}
