/** Whole runs of the buffer against a list that never evicts. `Accept` is what a buffer of unlimited
    memory would remember of the session; everything the bounded ring does is related to it here. */
module RingHistory {
  import opened Outcomes
  import opened RingBuffers
  import opened SegmentSelection
  import opened RingBufferIndex
  import opened FrameArena

  /** A frame as it was accepted, with its own bytes. */
  datatype Recorded = Recorded(
    sequence: nat,
    captureTsNs: Nanoseconds,
    isKeyframe: bool,
    data: seq<byte>,
    sessionId: string)

  /** Every frame accepted in the present session, and how many were accepted in all. */
  datatype History = History(hasSession: bool, sessionId: string, frames: seq<Recorded>, acceptedTotal: nat)

  const NO_HISTORY := History(false, "", [], 0)

  /** The list with one more frame of the session it is in. */
  function Append(h: History, f: CapturedFrame): History {
    History(h.hasSession, h.sessionId,
            h.frames + [Recorded(h.acceptedTotal, f.captureTsNs, f.isKeyframe, f.data, h.sessionId)],
            h.acceptedTotal + 1)
  }

  /** The list as it is once the session is sessionId: a new session forgets the frames of the last. */
  function Enter(h: History, sessionId: string): History {
    if h.hasSession && h.sessionId == sessionId then h else History(true, sessionId, [], h.acceptedTotal)
  }

  function Accept(capacity: nat, h: History, f: CapturedFrame): History {
    if |f.data| == 0 || |f.data| > capacity then h
    else
      var session := Enter(h, f.sessionId);
      if session.frames != [] && f.captureTsNs < session.frames[|session.frames| - 1].captureTsNs then h
      else Append(session, f)
  }

  /** The buffer after ingesting the inputs one by one, starting empty over whatever bytes the arena held. */
  function Run(capacity: nat, arena: seq<byte>, inputs: seq<CapturedFrame>): Buffer {
    if inputs == [] then Buffer(EmptyRing(capacity), arena, false)
    else Ingest(Run(capacity, arena, inputs[..|inputs| - 1]), inputs[|inputs| - 1]).0
  }

  function HistoryOf(capacity: nat, inputs: seq<CapturedFrame>): History {
    if inputs == [] then NO_HISTORY
    else Accept(capacity, HistoryOf(capacity, inputs[..|inputs| - 1]), inputs[|inputs| - 1])
  }

  // ------------------------------------------------------------ agreement

  /** The descriptor d stands for the recorded frame, bytes included. */
  ghost predicate Shows(arena: seq<byte>, d: FrameDescriptor, f: Recorded) {
    && d.sequence == f.sequence
    && d.captureTsNs == f.captureTsNs
    && d.isKeyframe == f.isKeyframe
    && d.sessionId == f.sessionId
    && d.length == |f.data|
    && d.EndOffset() <= |arena|
    && arena[d.offset..d.EndOffset()] == f.data
  }

  /** What the never-evicting list itself keeps. */
  ghost predicate Orderly(capacity: nat, h: History) {
    && (!h.hasSession ==> h.frames == [] && h.acceptedTotal == 0)
    && |h.frames| <= h.acceptedTotal
    && (forall i :: 0 <= i < |h.frames| ==>
          h.frames[i].sequence == h.acceptedTotal - |h.frames| + i && h.frames[i].sessionId == h.sessionId)
    && (forall i :: 0 <= i < |h.frames| ==> 0 < |h.frames[i].data| <= capacity)
    && (forall i, j :: 0 <= i < j < |h.frames| ==> InOrder(h.frames, i, j))
  }

  predicate InOrder(frames: seq<Recorded>, i: nat, j: nat)
    requires i < |frames| && j < |frames|
  {
    frames[i].captureTsNs <= frames[j].captureTsNs
  }

  ghost predicate IsSuffixOf(arena: seq<byte>, live: seq<FrameDescriptor>, all: seq<Recorded>) {
    && |live| <= |all|
    && forall i :: 0 <= i < |live| ==> ShowsAt(arena, live, all, i)
  }

  /** Counted from the newest, live frame i is a recorded frame. */
  ghost predicate ShowsAt(arena: seq<byte>, live: seq<FrameDescriptor>, all: seq<Recorded>, i: nat)
    requires i < |live| <= |all|
  {
    Shows(arena, live[i], all[|all| - |live| + i])
  }

  ghost predicate CountersAgree(r: RingState, h: History) {
    && r.hasSession == h.hasSession
    && (h.hasSession ==> r.sessionId == h.sessionId)
    && r.nextSequence == r.ingestedTotal == h.acceptedTotal
    && |r.frames| + r.evictedTotal == r.ingestedTotal
    && (r.frames == [] <==> h.frames == [])
  }

  ghost predicate Agrees(b: Buffer, h: History, l: Laps) {
    && LaidOut(b.ring, l)
    && Orderly(b.ring.capacity, h)
    && CountersAgree(b.ring, h)
    && b.ring.capacity <= |b.arena|
    && !b.isClosed
    && IsSuffixOf(b.arena, b.ring.frames, h.frames)
  }

  /** The laps once the session is sessionId. */
  ghost function LapsIn(r: RingState, l: Laps, sessionId: string): Laps {
    if RestartsSession(r, sessionId) then Laps(0, 0, 0) else l
  }

  lemma SessionSwitchAgrees(b: Buffer, h: History, l: Laps, sessionId: string)
    requires Agrees(b, h, l)
    ensures Agrees(b.(ring := InSession(b.ring, sessionId)), Enter(h, sessionId), LapsIn(b.ring, l, sessionId))
  {
  }

  /** Writing a frame leaves the bytes of every survivor alone. */
  lemma SurvivorsKeepTheirBytes(arena: seq<byte>, live: seq<FrameDescriptor>, all: seq<Recorded>, d: FrameDescriptor,
                                data: seq<byte>)
    requires IsSuffixOf(arena, live, all) && d.length == |data| && InArena(arena, d.offset, d.length)
    requires forall f :: f in live ==> f.length > 0 && !f.Occupies(d.offset, d.EndOffset())
    ensures IsSuffixOf(Overlay(arena, d.offset, data), live, all)
  {
    var after := Overlay(arena, d.offset, data);
    forall i | 0 <= i < |live| ensures ShowsAt(after, live, all, i) {
      var f := live[i];
      assert ShowsAt(arena, live, all, i);
      assert f in live;
      assert after[f.offset..f.EndOffset()] == arena[f.offset..f.EndOffset()];
    }
  }

  lemma SuffixDrop(arena: seq<byte>, live: seq<FrameDescriptor>, all: seq<Recorded>, m: nat)
    requires IsSuffixOf(arena, live, all) && m <= |live|
    ensures IsSuffixOf(arena, live[m..], all)
  {
    forall i | 0 <= i < |live| - m ensures ShowsAt(arena, live[m..], all, i) {
      assert ShowsAt(arena, live, all, m + i);
    }
  }

  lemma SuffixExtend(arena: seq<byte>, live: seq<FrameDescriptor>, all: seq<Recorded>, d: FrameDescriptor, f: Recorded)
    requires IsSuffixOf(arena, live, all) && Shows(arena, d, f)
    ensures IsSuffixOf(arena, live + [d], all + [f])
  {
    var live', all' := live + [d], all + [f];
    forall i | 0 <= i < |live'| ensures ShowsAt(arena, live', all', i) {
      if i < |live| {
        assert ShowsAt(arena, live, all, i);
      }
    }
  }

  lemma OrderlyExtend(capacity: nat, h: History, f: CapturedFrame)
    requires Orderly(capacity, h) && h.hasSession && 0 < |f.data| <= capacity
    requires h.frames != [] ==> h.frames[|h.frames| - 1].captureTsNs <= f.captureTsNs
    ensures Orderly(capacity, Append(h, f))
  {
    var more := Append(h, f).frames;
    forall i, j | 0 <= i < j < |more| ensures InOrder(more, i, j) {
      if j < |h.frames| {
        assert InOrder(h.frames, i, j);
      } else if i < |h.frames| - 1 {
        assert InOrder(h.frames, i, |h.frames| - 1);
      }
    }
  }

  /** The bytes after m frames died and the new one was written. */
  lemma PlacedBytes(b: Buffer, h: History, l: Laps, f: CapturedFrame, k: nat, m: nat, d: FrameDescriptor)
    requires Agrees(b, h, l) && 0 < |f.data| <= b.ring.capacity && PopsFromFront(b.ring, |f.data|, k, m)
    requires d.offset == OffsetFor(b.ring, |f.data|) && d.length == |f.data| && InArena(b.arena, d.offset, |f.data|)
    requires d.sequence == h.acceptedTotal && d.captureTsNs == f.captureTsNs && d.isKeyframe == f.isKeyframe
    requires d.sessionId == h.sessionId
    ensures IsSuffixOf(Overlay(b.arena, d.offset, f.data), b.ring.frames[m..] + [d], Append(h, f).frames)
  {
    var rest := b.ring.frames[m..];
    LaidOutRegions(b.ring, l);
    forall x | x in rest ensures x.length > 0 && !x.Occupies(d.offset, d.EndOffset()) {
      var i :| 0 <= i < |rest| && rest[i] == x;
      assert !Overwritten(b.ring, |f.data|, b.ring.frames[m + i]);
    }
    SuffixDrop(b.arena, b.ring.frames, h.frames, m);
    SurvivorsKeepTheirBytes(b.arena, rest, h.frames, d, f.data);
    SuffixExtend(Overlay(b.arena, d.offset, f.data), rest, h.frames, d,
                 Recorded(h.acceptedTotal, f.captureTsNs, f.isKeyframe, f.data, h.sessionId));
  }

  /** The buffer after an accepted frame of the session it is in. */
  function Placed(b: Buffer, f: CapturedFrame): Buffer
    requires InArena(b.arena, OffsetFor(b.ring, |f.data|), |f.data|)
  {
    Buffer(Place(b.ring, f.captureTsNs, |f.data|, f.isKeyframe).0,
           Overlay(b.arena, OffsetFor(b.ring, |f.data|), f.data), b.isClosed)
  }

  /** Placing an accepted frame keeps the agreement; m frames die for it. */
  lemma PlaceAgrees(b: Buffer, h: History, l: Laps, f: CapturedFrame) returns (m: nat)
    requires Agrees(b, h, l) && h.hasSession && h.sessionId == f.sessionId && 0 < |f.data| <= b.ring.capacity
    requires h.frames != [] ==> h.frames[|h.frames| - 1].captureTsNs <= f.captureTsNs
    ensures InArena(b.arena, OffsetFor(b.ring, |f.data|), |f.data|)
    ensures m <= |b.ring.frames| && (if Wraps(b.ring, |f.data|) then m > l.split else m <= l.split)
    ensures Agrees(Placed(b, f), Append(h, f), LapsAfter(b.ring, l, |f.data|, m))
    ensures m > 0 ==> b.ring.frames[m - 1].offset < OffsetFor(b.ring, |f.data|) + |f.data|
    ensures Placed(b, f).ring.writeOffset == OffsetFor(b.ring, |f.data|) + |f.data|
    ensures |Placed(b, f).ring.frames| == |b.ring.frames| - m + 1
  {
    var k;
    k, m := DoomedPrefix(b.ring, l, |f.data|);
    PlacedState(b.ring, f.captureTsNs, |f.data|, f.isKeyframe, k, m);
    PopsAgree(b, h, l, f, k, m);
  }

  lemma PopsAgree(b: Buffer, h: History, l: Laps, f: CapturedFrame, k: nat, m: nat)
    requires Agrees(b, h, l) && h.hasSession && h.sessionId == f.sessionId && 0 < |f.data| <= b.ring.capacity
    requires h.frames != [] ==> h.frames[|h.frames| - 1].captureTsNs <= f.captureTsNs
    requires PopsFromFront(b.ring, |f.data|, k, m)
    requires if Wraps(b.ring, |f.data|) then k == l.split < m else k == 0 && m <= l.split
    ensures InArena(b.arena, OffsetFor(b.ring, |f.data|), |f.data|)
    ensures var r := b.ring;
      var d := FrameDescriptor(r.nextSequence, f.captureTsNs, OffsetFor(r, |f.data|), |f.data|, f.isKeyframe,
                               r.sessionId);
      var placed := RingState(r.capacity, r.frames[m..] + [d], d.EndOffset(), r.nextSequence + 1, r.hasSession,
                              r.sessionId, r.ingestedTotal + 1, r.evictedTotal + m);
      Agrees(Buffer(placed, Overlay(b.arena, d.offset, f.data), b.isClosed), Append(h, f),
             LapsAfter(r, l, |f.data|, m))
  {
    var r := b.ring;
    var d := FrameDescriptor(r.nextSequence, f.captureTsNs, OffsetFor(r, |f.data|), |f.data|, f.isKeyframe,
                             r.sessionId);
    OrderlyExtend(r.capacity, h, f);
    PlacedLayout(r, l, |f.data|, k, m, d);
    PlacedBytes(b, h, l, f, k, m, d);
  }

  /** Ring and list accept the same frames: the newest live frame is the newest accepted one. */
  lemma SameVerdict(b: Buffer, h: History, l: Laps, f: CapturedFrame)
    requires Agrees(b, h, l)
    ensures var session := Enter(h, f.sessionId);
      if Rejection(b.ring, f.captureTsNs, |f.data|, f.sessionId).None? then
        && Accept(b.ring.capacity, h, f) == Append(session, f)
        && 0 < |f.data| <= b.ring.capacity
        && (session.frames != [] ==> session.frames[|session.frames| - 1].captureTsNs <= f.captureTsNs)
      else Accept(b.ring.capacity, h, f) == h
  {
    var live, all := b.ring.frames, h.frames;
    if live != [] {
      assert ShowsAt(b.arena, live, all, |live| - 1);
    }
  }

  lemma IngestIsPlaced(b: Buffer, f: CapturedFrame)
    requires Rejection(b.ring, f.captureTsNs, |f.data|, f.sessionId).None? && !b.isClosed
    requires InArena(b.arena, OffsetFor(InSession(b.ring, f.sessionId), |f.data|), |f.data|)
    ensures Ingest(b, f).0 == Placed(b.(ring := InSession(b.ring, f.sessionId)), f)
    ensures Ingest(b, f).1.Success?
  {
  }

  // ------------------------------------------------------------ retention

  function Longest(frames: seq<Recorded>): nat {
    if frames == [] then 0
    else
      var rest, last := Longest(frames[..|frames| - 1]), |frames[|frames| - 1].data|;
      if last > rest then last else rest
  }

  /** Where the write pointer of an arena of the given size stands after frames of these lengths. */
  function LapPointer(capacity: nat, frames: seq<Recorded>): nat {
    if frames == [] then 0
    else
      var w, length := LapPointer(capacity, frames[..|frames| - 1]), |frames[|frames| - 1].data|;
      if w + length > capacity then length else w + length
  }

  /** Some frame of the session did not fit before the end of the arena. */
  predicate HasWrapped(capacity: nat, frames: seq<Recorded>) {
    frames != [] &&
    var init, length := frames[..|frames| - 1], |frames[|frames| - 1].data|;
    HasWrapped(capacity, init) || LapPointer(capacity, init) + length > capacity
  }

  /** How far the old lap still reaches: its end is within one longest frame of the end of the arena, and
      the current lap is longer than that gap; its start is within one longest frame of the write pointer. */
  ghost predicate Reaches(r: RingState, all: seq<Recorded>, l: Laps) {
    ReachesAt(r.capacity, r.writeOffset, |r.frames|, all, l)
  }

  ghost predicate ReachesAt(capacity: nat, writeOffset: nat, liveCount: nat, all: seq<Recorded>, l: Laps) {
    && writeOffset == LapPointer(capacity, all)
    && (HasWrapped(capacity, all) ==> l.oldEnd + Longest(all) > capacity && l.oldStart < writeOffset + Longest(all))
    && (HasWrapped(capacity, all) ==> l.oldEnd + writeOffset > capacity)
    && (!HasWrapped(capacity, all) ==> liveCount == |all| && l.split == 0)
  }

  lemma {:induction false} LongestIsBound(frames: seq<Recorded>, i: nat)
    requires i < |frames|
    ensures |frames[i].data| <= Longest(frames)
  {
    if i < |frames| - 1 {
      assert frames[..|frames| - 1][i] == frames[i];
      LongestIsBound(frames[..|frames| - 1], i);
    }
  }

  lemma LiveLengthIsBound(arena: seq<byte>, live: seq<FrameDescriptor>, all: seq<Recorded>, i: nat)
    requires IsSuffixOf(arena, live, all) && i < |live|
    ensures live[i].length <= Longest(all)
  {
    assert ShowsAt(arena, live, all, i);
    LongestIsBound(all, |all| - |live| + i);
  }

  lemma ReachesStep(r: RingState, all: seq<Recorded>, l: Laps, f: Recorded, m: nat)
    requires Reaches(r, all, l) && 0 < |f.data| <= r.capacity
    requires m <= |r.frames| && (if Wraps(r, |f.data|) then m > l.split else m <= l.split)
    requires m > 0 ==> r.frames[m - 1].offset < OffsetFor(r, |f.data|) + |f.data|
    requires m > 0 ==> r.frames[m - 1].length <= Longest(all)
    ensures ReachesAt(r.capacity, OffsetFor(r, |f.data|) + |f.data|, |r.frames| - m + 1, all + [f],
                      LapsAfter(r, l, |f.data|, m))
  {
    var all' := all + [f];
    assert all'[..|all'| - 1] == all;
    assert LapPointer(r.capacity, all') == OffsetFor(r, |f.data|) + |f.data|;
    assert Longest(all') >= Longest(all) && Longest(all') >= |f.data|;
    assert HasWrapped(r.capacity, all') <==> HasWrapped(r.capacity, all) || Wraps(r, |f.data|);
  }

  ghost predicate Related(b: Buffer, h: History, l: Laps) {
    Agrees(b, h, l) && Reaches(b.ring, h.frames, l)
  }

  lemma PlaceRelated(b: Buffer, h: History, l: Laps, f: CapturedFrame) returns (l': Laps)
    requires Related(b, h, l) && h.hasSession && h.sessionId == f.sessionId && 0 < |f.data| <= b.ring.capacity
    requires h.frames != [] ==> h.frames[|h.frames| - 1].captureTsNs <= f.captureTsNs
    ensures InArena(b.arena, OffsetFor(b.ring, |f.data|), |f.data|)
    ensures Related(Placed(b, f), Append(h, f), l')
  {
    var r, all := b.ring, h.frames;
    var m := PlaceAgrees(b, h, l, f);
    l' := LapsAfter(r, l, |f.data|, m);
    if m > 0 {
      LiveLengthIsBound(b.arena, r.frames, all, m - 1);
    }
    ReachesStep(r, all, l, Recorded(h.acceptedTotal, f.captureTsNs, f.isKeyframe, f.data, h.sessionId), m);
  }

  lemma SessionSwitchRelated(b: Buffer, h: History, l: Laps, sessionId: string)
    requires Related(b, h, l)
    ensures Related(b.(ring := InSession(b.ring, sessionId)), Enter(h, sessionId), LapsIn(b.ring, l, sessionId))
  {
    SessionSwitchAgrees(b, h, l, sessionId);
  }

  /** One ingest, accepted or not, keeps buffer and list related. They accept the same frames, and a
      rejected frame changes neither. */
  lemma IngestRelated(b: Buffer, h: History, l: Laps, f: CapturedFrame) returns (l': Laps)
    requires Related(b, h, l)
    ensures Related(Ingest(b, f).0, Accept(b.ring.capacity, h, f), l')
    ensures Ingest(b, f).0.ring.capacity == b.ring.capacity
    ensures Ingest(b, f).1.Success? <==> Accept(b.ring.capacity, h, f) != h
    ensures Ingest(b, f).1.Failure? ==> Ingest(b, f).0 == b && Ingest(b, f).1.error.RingRejected?
  {
    SameVerdict(b, h, l, f);
    l' := l;
    if Rejection(b.ring, f.captureTsNs, |f.data|, f.sessionId).None? {
      l' := AcceptRelated(b, h, l, f);
    } else {
      RejectionChangesNothing(b, f);
    }
  }

  lemma RejectionChangesNothing(b: Buffer, f: CapturedFrame)
    requires Rejection(b.ring, f.captureTsNs, |f.data|, f.sessionId).Some?
    ensures Ingest(b, f) == (b, Failure(RingRejected(Rejection(b.ring, f.captureTsNs, |f.data|, f.sessionId).value)))
  {
  }

  lemma AcceptRelated(b: Buffer, h: History, l: Laps, f: CapturedFrame) returns (l': Laps)
    requires Related(b, h, l) && Rejection(b.ring, f.captureTsNs, |f.data|, f.sessionId).None?
    ensures Related(Ingest(b, f).0, Accept(b.ring.capacity, h, f), l') && Accept(b.ring.capacity, h, f) != h
    ensures Ingest(b, f).1.Success? && Ingest(b, f).0.ring.capacity == b.ring.capacity
  {
    SameVerdict(b, h, l, f);
    SessionSwitchRelated(b, h, l, f.sessionId);
    l' := PlaceRelated(b.(ring := InSession(b.ring, f.sessionId)), Enter(h, f.sessionId),
                       LapsIn(b.ring, l, f.sessionId), f);
    IngestIsPlaced(b, f);
  }

  /** Every run of ingests into a large enough arena. */
  lemma {:induction false} RunRelated(capacity: nat, arena: seq<byte>, inputs: seq<CapturedFrame>) returns (l: Laps)
    requires 0 < capacity <= |arena|
    ensures Related(Run(capacity, arena, inputs), HistoryOf(capacity, inputs), l)
    ensures Run(capacity, arena, inputs).ring.capacity == capacity
  {
    if inputs == [] {
      l := Laps(0, 0, 0);
    } else {
      var l0 := RunRelated(capacity, arena, inputs[..|inputs| - 1]);
      l := IngestRelated(Run(capacity, arena, inputs[..|inputs| - 1]), HistoryOf(capacity, inputs[..|inputs| - 1]), l0,
                         inputs[|inputs| - 1]);
    }
  }

  // --------------------------------------------- what holds after every run

  /** Live frames are the newest accepted ones, each with its own bytes in a region of its own. */
  lemma ArenaAgreement(capacity: nat, arena: seq<byte>, inputs: seq<CapturedFrame>)
    requires 0 < capacity <= |arena|
    ensures var b, h := Run(capacity, arena, inputs), HistoryOf(capacity, inputs);
      var live, all := b.ring.frames, h.frames;
      && |b.arena| == |arena|
      && |live| <= |all|
      && (forall i :: 0 <= i < |live| ==> ShowsAt(b.arena, live, all, i))
      && (forall i :: 0 <= i < |live| ==> live[i].length > 0 && live[i].EndOffset() <= capacity)
      && (forall i, j :: 0 <= i < j < |live| ==>
            live[i].EndOffset() <= live[j].offset || live[j].EndOffset() <= live[i].offset)
  {
    var l := RunRelated(capacity, arena, inputs);
    LaidOutRegions(Run(capacity, arena, inputs).ring, l);
    RunKeepsArenaSize(capacity, arena, inputs);
  }

  lemma {:induction false} RunKeepsArenaSize(capacity: nat, arena: seq<byte>, inputs: seq<CapturedFrame>)
    ensures |Run(capacity, arena, inputs).arena| == |arena|
  {
    if inputs != [] {
      RunKeepsArenaSize(capacity, arena, inputs[..|inputs| - 1]);
    }
  }

  /** The index is a contiguous suffix of the session: consecutive sequence numbers, one session, one
      clock that never runs back (over the frames already evicted, too), and no frame uncounted. */
  lemma LiveIndexIsSuffix(capacity: nat, arena: seq<byte>, inputs: seq<CapturedFrame>)
    requires 0 < capacity <= |arena|
    ensures var r, h := Run(capacity, arena, inputs).ring, HistoryOf(capacity, inputs);
      && |r.frames| + r.evictedTotal == r.ingestedTotal == h.acceptedTotal
      && (r.frames == [] <==> h.frames == [])
      && (forall i :: 0 <= i < |r.frames| ==> r.frames[i].sequence == r.nextSequence - |r.frames| + i)
      && (forall i :: 0 <= i < |r.frames| ==> r.frames[i].sessionId == r.sessionId)
      && (forall i, j :: 0 <= i < j < |h.frames| ==> InOrder(h.frames, i, j))
      && Monotone(Stamps(r.frames))
  {
    var l := RunRelated(capacity, arena, inputs);
    var b, h := Run(capacity, arena, inputs), HistoryOf(capacity, inputs);
    SuffixIsMonotone(b, h, l);
    forall i | 0 <= i < |b.ring.frames|
      ensures b.ring.frames[i].sequence == b.ring.nextSequence - |b.ring.frames| + i
      ensures b.ring.frames[i].sessionId == b.ring.sessionId
    {
      assert ShowsAt(b.arena, b.ring.frames, h.frames, i);
    }
  }

  lemma SuffixIsMonotone(b: Buffer, h: History, l: Laps)
    requires Agrees(b, h, l)
    ensures Monotone(Stamps(b.ring.frames))
  {
    var live, all := b.ring.frames, h.frames;
    forall i, j | 0 <= i < j < |live| ensures live[i].captureTsNs <= live[j].captureTsNs {
      assert ShowsAt(b.arena, live, all, i) && ShowsAt(b.arena, live, all, j);
      assert InOrder(all, |all| - |live| + i, |all| - |live| + j);
    }
  }

  lemma {:induction false} PackedBytes(s: seq<FrameDescriptor>, start: nat, end: nat)
    requires Packed(s, start, end)
    ensures TotalBytes(s) == end - start
  {
    PackedIsOrdered(s, start, end);
    if s != [] {
      PackedBytes(s[1..], s[0].EndOffset(), end);
      TotalBytesSplit([s[0]], s[1..]);
      assert [s[0]] + s[1..] == s;
      assert [s[0]][..0] == [];
    }
  }

  lemma {:induction false} TotalBytesSplit(a: seq<FrameDescriptor>, b: seq<FrameDescriptor>)
    ensures TotalBytes(a + b) == TotalBytes(a) + TotalBytes(b)
  {
    if b == [] {
      assert a + b == a;
    } else {
      TotalBytesSplit(a, b[..|b| - 1]);
      assert (a + b)[..|a + b| - 1] == a + b[..|b| - 1];
    }
  }

  /** The live bytes are the stretch of the old lap and the current lap. */
  lemma LiveBytes(r: RingState, l: Laps)
    requires LaidOut(r, l)
    ensures TotalBytes(r.frames) == l.oldEnd - l.oldStart + r.writeOffset
    ensures TotalBytes(r.frames) <= r.capacity
  {
    var prior, lap := r.frames[..l.split], r.frames[l.split..];
    PackedBytes(prior, l.oldStart, l.oldEnd);
    PackedBytes(lap, 0, r.writeOffset);
    TotalBytesSplit(prior, lap);
    assert prior + lap == r.frames;
  }

  /** The retention bound. Nothing dies before the first wrap of a session; from then on the live
      frames hold at least capacity - 2 * longest + 2 bytes; and never more than the capacity. */
  lemma RetentionBound(capacity: nat, arena: seq<byte>, inputs: seq<CapturedFrame>)
    requires 0 < capacity <= |arena|
    ensures var r, all := Run(capacity, arena, inputs).ring, HistoryOf(capacity, inputs).frames;
      && TotalBytes(r.frames) <= capacity
      && (HasWrapped(capacity, all) ==> TotalBytes(r.frames) + 2 * Longest(all) >= capacity + 2)
      && (!HasWrapped(capacity, all) ==> |r.frames| == |all|)
  {
    var l := RunRelated(capacity, arena, inputs);
    LiveBytes(Run(capacity, arena, inputs).ring, l);
  }

  ghost predicate HoldsFrameIn(frames: seq<FrameDescriptor>, w: Window) {
    exists f :: f in frames && w.startNs <= f.captureTsNs <= w.endNs
  }

  ghost predicate HoldsKeyframeUpTo(frames: seq<FrameDescriptor>, endNs: Nanoseconds) {
    exists f :: f in frames && f.isKeyframe && f.captureTsNs <= endNs
  }

  lemma StampsShowFrames(frames: seq<FrameDescriptor>, w: Window)
    ensures HoldsFrameIn(frames, w) <==>
      exists i :: 0 <= i < |frames| && w.startNs <= Stamps(frames)[i].captureTsNs <= w.endNs
    ensures HoldsKeyframeUpTo(frames, w.endNs) <==>
      exists i :: 0 <= i < |frames| && Stamps(frames)[i].isKeyframe && Stamps(frames)[i].captureTsNs <= w.endNs
  {
    var s := Stamps(frames);
    if i :| 0 <= i < |frames| && w.startNs <= s[i].captureTsNs <= w.endNs {
      assert frames[i] in frames;
    }
    if i :| 0 <= i < |frames| && s[i].isKeyframe && s[i].captureTsNs <= w.endNs {
      assert frames[i] in frames;
    }
  }

  /** The segment query fails exactly when it must, with the right reason, and otherwise returns the one
      right run of live frames. */
  ghost predicate IsExactQuery(r: RingState, w: CaptureWindow) {
    match Select(Stamps(r.frames), w)
    case Failure(error) =>
      && SegmentOf(r, w) == Failure(error)
      && (error == WindowNotInBuffer <==> !HoldsFrameIn(r.frames, w))
      && (error == NoDecodableStart <==> HoldsFrameIn(r.frames, w) && !HoldsKeyframeUpTo(r.frames, w.endNs))
    case Success(a) =>
      && SegmentOf(r, w) == Success(BufferSegment(w, r.frames[a.first..a.last + 1], a.isTruncatedAtStart,
                                                  a.isTruncatedAtEnd))
      && HoldsFrameIn(r.frames, w) && HoldsKeyframeUpTo(r.frames, w.endNs)
      && Answers(Stamps(r.frames), w, a)
  }

  lemma MonotoneQueryIsExact(r: RingState, w: CaptureWindow)
    requires Monotone(Stamps(r.frames))
    ensures IsExactQuery(r, w)
  {
    SelectIsExact(Stamps(r.frames), w);
    StampsShowFrames(r.frames, w);
  }

  /** So it does on every run. */
  lemma SegmentIsExact(capacity: nat, arena: seq<byte>, inputs: seq<CapturedFrame>, w: CaptureWindow)
    requires 0 < capacity <= |arena|
    ensures IsExactQuery(Run(capacity, arena, inputs).ring, w)
  {
    LiveIndexIsSuffix(capacity, arena, inputs);
    MonotoneQueryIsExact(Run(capacity, arena, inputs).ring, w);
  }

  // --------------------------------------------------- honest start flag

  function RecordedStamps(frames: seq<Recorded>): (s: seq<Stamp>)
    ensures |s| == |frames|
    ensures forall i :: 0 <= i < |s| ==> s[i] == Stamp(frames[i].captureTsNs, frames[i].isKeyframe)
  {
    seq(|frames|, i requires 0 <= i < |frames| => Stamp(frames[i].captureTsNs, frames[i].isKeyframe))
  }

  function Copies(frames: seq<Recorded>): (r: seq<ExtractedFrame>)
    ensures |r| == |frames|
    ensures forall i :: 0 <= i < |r| ==>
      r[i] == ExtractedFrame(frames[i].sequence, frames[i].captureTsNs, frames[i].isKeyframe, frames[i].data)
  {
    seq(|frames|, i requires 0 <= i < |frames| =>
      ExtractedFrame(frames[i].sequence, frames[i].captureTsNs, frames[i].isKeyframe, frames[i].data))
  }

  /** The copied run that a selection stands for when the first k frames of the list are ignored. */
  function HistorySegment(h: History, w: CaptureWindow, a: Selection, k: nat): ExtractedSegment
    requires a.first <= a.last && a.last + k < |h.frames|
  {
    ExtractedSegment(w, h.sessionId, Copies(h.frames[a.first + k..a.last + k + 1]), a.isTruncatedAtStart,
                     a.isTruncatedAtEnd)
  }

  /** What the list that never evicts gives for a window. */
  function ExtractFromHistory(h: History, w: CaptureWindow): Result<ExtractedSegment, RingError> {
    match Select(RecordedStamps(h.frames), w)
    case Failure(error) => Failure(error)
    case Success(a) => Success(HistorySegment(h, w, a, 0))
  }

  lemma {:induction false} CopiesAreFaithful(b: Buffer, frames: seq<FrameDescriptor>, recorded: seq<Recorded>)
    requires !b.isClosed && |frames| == |recorded|
    requires forall i :: 0 <= i < |frames| ==> Shows(b.arena, frames[i], recorded[i])
    ensures CopyFrames(b, frames) == Success(Copies(recorded))
  {
    if frames == [] {
      assert Copies(recorded) == [];
    } else {
      var n := |frames| - 1;
      CopiesAreFaithful(b, frames[..n], recorded[..n]);
      assert Shows(b.arena, frames[n], recorded[n]);
      assert Copies(recorded) == Copies(recorded[..n]) + [Copies(recorded)[n]];
    }
  }

  /** What reading rests on: the live frames show recorded ones, and the arena is open. */
  ghost predicate IsReadable(b: Buffer, h: History) {
    IsSuffixOf(b.arena, b.ring.frames, h.frames) && Orderly(b.ring.capacity, h) && !b.isClosed
  }

  lemma StampsAreSuffix(b: Buffer, h: History)
    requires IsReadable(b, h)
    ensures RecordedStamps(h.frames)[|h.frames| - |b.ring.frames|..] == Stamps(b.ring.frames)
  {
    var live, all := b.ring.frames, h.frames;
    var k := |all| - |live|;
    forall i | 0 <= i < |live| ensures RecordedStamps(all)[k..][i] == Stamps(live)[i] {
      assert ShowsAt(b.arena, live, all, i);
    }
  }

  lemma RunOfCopies(b: Buffer, live: seq<FrameDescriptor>, all: seq<Recorded>, first: nat, last: nat)
    requires IsSuffixOf(b.arena, live, all) && !b.isClosed && first <= last < |live|
    ensures var k := |all| - |live|;
      && CopyFrames(b, live[first..last + 1]) == Success(Copies(all[first + k..last + k + 1]))
      && live[first..last + 1][0].sessionId == all[first + k].sessionId
  {
    var k := |all| - |live|;
    var frames, recorded := live[first..last + 1], all[first + k..last + k + 1];
    forall i | 0 <= i < |frames| ensures Shows(b.arena, frames[i], recorded[i]) {
      assert ShowsAt(b.arena, live, all, first + i);
    }
    CopiesAreFaithful(b, frames, recorded);
    assert Shows(b.arena, frames[0], recorded[0]);
  }

  /** An extraction in terms of the list. It never fails for the arena's sake. */
  lemma ExtractShows(b: Buffer, h: History, k: nat, w: CaptureWindow, a: Selection)
    requires IsReadable(b, h) && k == |h.frames| - |b.ring.frames|
    requires Select(Stamps(b.ring.frames), w) == Success(a)
    ensures Extract(b, w) == Success(HistorySegment(h, w, a, k))
  {
    var copies, sessionId := ShownRun(b, h, w, a);
    ExtractCopies(b, w, a, copies, sessionId);
  }

  lemma ShownRun(b: Buffer, h: History, w: CaptureWindow, a: Selection)
    returns (copies: seq<ExtractedFrame>, sessionId: string)
    requires IsSuffixOf(b.arena, b.ring.frames, h.frames) && !b.isClosed && a.first <= a.last < |b.ring.frames|
    requires forall i :: 0 <= i < |h.frames| ==> h.frames[i].sessionId == h.sessionId
    ensures CopyFrames(b, b.ring.frames[a.first..a.last + 1]) == Success(copies)
    ensures b.ring.frames[a.first].sessionId == sessionId
    ensures HistorySegment(h, w, a, |h.frames| - |b.ring.frames|)
      == ExtractedSegment(w, sessionId, copies, a.isTruncatedAtStart, a.isTruncatedAtEnd)
  {
    RunOfCopies(b, b.ring.frames, h.frames, a.first, a.last);
    var k := |h.frames| - |b.ring.frames|;
    copies, sessionId := Copies(h.frames[a.first + k..a.last + k + 1]), h.sessionId;
  }

  lemma ExtractFails(b: Buffer, w: CaptureWindow)
    requires Select(Stamps(b.ring.frames), w).Failure?
    ensures Extract(b, w) == Failure(RingRejected(Select(Stamps(b.ring.frames), w).error))
  {
  }

  ghost predicate IsHonest(mine: ExtractedSegment, ideal: ExtractedSegment, oldestLive: nat) {
    && ideal.frames != []
    && (mine == ideal <==> oldestLive <= ideal.frames[0].sequence)
    && (!mine.isTruncatedAtStart ==> mine == ideal)
    && (mine.isTruncatedAtStart && !ideal.isTruncatedAtStart ==> ideal.frames[0].sequence < oldestLive)
  }

  /** Two selections that end alike give the same copies exactly when they start at the same frame. */
  lemma SameSegment(h: History, capacity: nat, w: CaptureWindow, k: nat, part: Selection, whole: Selection)
    requires Orderly(capacity, h) && IsPartialAnswer(part, whole, k)
    requires part.first <= part.last && part.last + k < |h.frames| && whole.first <= whole.last
    ensures IsHonest(HistorySegment(h, w, part, k), HistorySegment(h, w, whole, 0), h.frames[k].sequence)
  {
    var mine := Copies(h.frames[part.first + k..part.last + k + 1]);
    var ideal := Copies(h.frames[whole.first..whole.last + 1]);
    assert mine[0].sequence == h.frames[part.first + k].sequence;
    assert ideal[0].sequence == h.frames[whole.first].sequence;
  }

  /** What the list gives for a window in which its frames from k on give part. */
  lemma IdealSegment(h: History, k: nat, w: CaptureWindow, part: Selection) returns (whole: Selection)
    requires k <= |h.frames| && Select(RecordedStamps(h.frames)[k..], w) == Success(part)
    ensures whole.first <= whole.last < |h.frames| && part.first <= part.last && part.last + k < |h.frames|
    ensures ExtractFromHistory(h, w) == Success(HistorySegment(h, w, whole, 0))
    ensures IsPartialAnswer(part, whole, k)
  {
    SelectOnSuffix(RecordedStamps(h.frames), k, w);
    whole := Select(RecordedStamps(h.frames), w).value;
  }

  lemma OldestLive(b: Buffer, h: History)
    requires IsSuffixOf(b.arena, b.ring.frames, h.frames) && b.ring.frames != []
    ensures b.ring.frames[0].sequence == h.frames[|h.frames| - |b.ring.frames|].sequence
  {
    assert ShowsAt(b.arena, b.ring.frames, h.frames, 0);
  }

  /** What an extraction rests on: the live frames are the list's frames from k on. */
  ghost predicate IsTail(b: Buffer, h: History, k: nat) {
    && Orderly(b.ring.capacity, h) && k <= |h.frames|
    && Stamps(b.ring.frames) == RecordedStamps(h.frames)[k..]
    && (b.ring.frames != [] ==> k < |h.frames| && b.ring.frames[0].sequence == h.frames[k].sequence)
  }

  lemma LiveFramesAreTail(b: Buffer, h: History)
    requires IsReadable(b, h)
    ensures IsTail(b, h, |h.frames| - |b.ring.frames|)
  {
    StampsAreSuffix(b, h);
    if b.ring.frames != [] {
      OldestLive(b, h);
    }
  }

  lemma HonestTail(b: Buffer, h: History, k: nat, w: CaptureWindow, part: Selection)
    requires IsTail(b, h, k) && Select(Stamps(b.ring.frames), w) == Success(part)
    ensures part.last + k < |h.frames| && ExtractFromHistory(h, w).Success? && b.ring.frames != []
    ensures IsHonest(HistorySegment(h, w, part, k), ExtractFromHistory(h, w).value, b.ring.frames[0].sequence)
  {
    var whole := IdealSegment(h, k, w, part);
    SameSegment(h, b.ring.capacity, w, k, part, whole);
  }

  lemma HonestAnswer(b: Buffer, h: History, k: nat, w: CaptureWindow, part: Selection)
    requires IsReadable(b, h) && k == |h.frames| - |b.ring.frames|
    requires Select(Stamps(b.ring.frames), w) == Success(part)
    ensures part.last + k < |h.frames| && ExtractFromHistory(h, w).Success? && b.ring.frames != []
    ensures IsHonest(HistorySegment(h, w, part, k), ExtractFromHistory(h, w).value, b.ring.frames[0].sequence)
  {
    LiveFramesAreTail(b, h);
    HonestTail(b, h, k, w, part);
  }

  lemma HonestSelection(b: Buffer, h: History, w: CaptureWindow, part: Selection)
    requires IsReadable(b, h) && Select(Stamps(b.ring.frames), w) == Success(part)
    ensures Extract(b, w).Success? && ExtractFromHistory(h, w).Success? && b.ring.frames != []
    ensures IsHonest(Extract(b, w).value, ExtractFromHistory(h, w).value, b.ring.frames[0].sequence)
  {
    var k := |h.frames| - |b.ring.frames|;
    ExtractShows(b, h, k, w, part);
    HonestAnswer(b, h, k, w, part);
  }

  lemma HonestSegment(b: Buffer, h: History, w: CaptureWindow)
    requires IsReadable(b, h) && Extract(b, w).Success?
    ensures ExtractFromHistory(h, w).Success? && b.ring.frames != []
    ensures IsHonest(Extract(b, w).value, ExtractFromHistory(h, w).value, b.ring.frames[0].sequence)
  {
    var part := Select(Stamps(b.ring.frames), w);
    if part.Failure? {
      ExtractFails(b, w);
    }
    HonestSelection(b, h, w, part.value);
  }

  /** The keyframe that the list's answer to the window starts at is still live. */
  predicate StartIsLive(b: Buffer, h: History, w: CaptureWindow) {
    var ideal := ExtractFromHistory(h, w);
    && ideal.Success? && ideal.value.frames != [] && b.ring.frames != []
    && b.ring.frames[0].sequence <= ideal.value.frames[0].sequence
  }

  /** Where an answer starts there is a keyframe that is not too late, and a frame of the window is there or
      behind it. */
  lemma StartAndWindow(s: seq<Stamp>, w: CaptureWindow, whole: Selection) returns (i: nat)
    requires Monotone(s) && Select(s, w) == Success(whole)
    ensures s[whole.first].isKeyframe && s[whole.first].captureTsNs <= w.endNs
    ensures whole.first <= i < |s| && w.startNs <= s[i].captureTsNs <= w.endNs
  {
    SelectStarts(s, w, whole);
    if w.Contains(s[whole.first].captureTsNs) {
      return whole.first;
    }
    SelectFailures(s, w);
    i :| 0 <= i < |s| && w.startNs <= s[i].captureTsNs <= w.endNs;
  }

  /** If they are among the last frames, those give an answer too. */
  lemma LiveStartIsFound(s: seq<Stamp>, k: nat, t: seq<Stamp>, w: CaptureWindow, whole: Selection)
    requires Monotone(s) && k <= whole.first && Select(s, w) == Success(whole) && t == s[k..]
    ensures Select(t, w).Success?
  {
    var i := StartAndWindow(s, w, whole);
    SelectFailures(t, w);
    assert t[whole.first - k] == s[whole.first];
    assert t[i - k] == s[i];
  }

  /** A window whose answer starts at a live keyframe is answered, and answered in full. */
  lemma LiveStartIsAnswered(b: Buffer, h: History, w: CaptureWindow)
    requires IsReadable(b, h) && StartIsLive(b, h, w)
    ensures Extract(b, w) == Success(ExtractFromHistory(h, w).value)
  {
    LiveFramesAreTail(b, h);
    LiveStartIsSelected(b, h, |h.frames| - |b.ring.frames|, w);
    HonestSelection(b, h, w, Select(Stamps(b.ring.frames), w).value);
  }

  lemma LiveStartIsSelected(b: Buffer, h: History, k: nat, w: CaptureWindow)
    requires IsTail(b, h, k) && StartIsLive(b, h, w)
    ensures Select(Stamps(b.ring.frames), w).Success?
  {
    var whole := IdealStart(h, w);
    SequencesRise(b.ring.capacity, h, k, whole.first);
    HistoryIsMonotone(b.ring.capacity, h);
    LiveStartIsFound(RecordedStamps(h.frames), k, Stamps(b.ring.frames), w, whole);
  }

  lemma IdealStart(h: History, w: CaptureWindow) returns (whole: Selection)
    requires ExtractFromHistory(h, w).Success?
    ensures Select(RecordedStamps(h.frames), w) == Success(whole) && whole.first < |h.frames|
    ensures ExtractFromHistory(h, w).value.frames != []
    ensures ExtractFromHistory(h, w).value.frames[0].sequence == h.frames[whole.first].sequence
  {
    whole := Select(RecordedStamps(h.frames), w).value;
  }

  lemma SequencesRise(capacity: nat, h: History, i: nat, j: nat)
    requires Orderly(capacity, h) && i < |h.frames| && j < |h.frames|
    ensures h.frames[i].sequence <= h.frames[j].sequence <==> i <= j
  {
  }

  lemma HistoryIsMonotone(capacity: nat, h: History)
    requires Orderly(capacity, h)
    ensures Monotone(RecordedStamps(h.frames))
  {
    forall i, j | 0 <= i < j < |h.frames| ensures h.frames[i].captureTsNs <= h.frames[j].captureTsNs {
      assert InOrder(h.frames, i, j);
    }
  }

  /** The start flag is honest. An extraction is the never-evicting list's own answer (timestamps,
      keyframe flags, sequence numbers, bytes, both flags) exactly when the keyframe that list would
      start at is still live, and always when it is not flagged as truncated at the start. Where the list
      has no answer there is none. */
  lemma StartFlagIsHonest(capacity: nat, arena: seq<byte>, inputs: seq<CapturedFrame>, w: CaptureWindow)
    requires 0 < capacity <= |arena|
    ensures var b, h := Run(capacity, arena, inputs), HistoryOf(capacity, inputs);
      && (StartIsLive(b, h, w) ==> Extract(b, w) == Success(ExtractFromHistory(h, w).value))
      && (Extract(b, w).Success? ==>
            && ExtractFromHistory(h, w).Success? && b.ring.frames != []
            && IsHonest(Extract(b, w).value, ExtractFromHistory(h, w).value, b.ring.frames[0].sequence))
  {
    var l := RunRelated(capacity, arena, inputs);
    if StartIsLive(Run(capacity, arena, inputs), HistoryOf(capacity, inputs), w) {
      LiveStartIsAnswered(Run(capacity, arena, inputs), HistoryOf(capacity, inputs), w);
    }
    if Extract(Run(capacity, arena, inputs), w).Success? {
      HonestSegment(Run(capacity, arena, inputs), HistoryOf(capacity, inputs), w);
    }
  }

  /** An extraction in full: each error for its own reason and no other, and otherwise an honest copy, which
      is the list's own answer whenever the keyframe that one starts at is still live. */
  ghost predicate TellsTheTruth(b: Buffer, h: History, w: CaptureWindow,
                                answer: Result<ExtractedSegment, IngestError>)
  {
    var isThere, isDecodable := HoldsFrameIn(b.ring.frames, w), HoldsKeyframeUpTo(b.ring.frames, w.endNs);
    && (answer == Failure(RingRejected(WindowNotInBuffer)) <==> !isThere)
    && (answer == Failure(RingRejected(NoDecodableStart)) <==> isThere && !isDecodable)
    && (answer.Success? <==> isThere && isDecodable)
    && (answer.Success? ==>
          && ExtractFromHistory(h, w).Success? && b.ring.frames != []
          && IsHonest(answer.value, ExtractFromHistory(h, w).value, b.ring.frames[0].sequence))
    && (StartIsLive(b, h, w) ==> answer == Success(ExtractFromHistory(h, w).value))
  }

  lemma ExtractFailsExactly(b: Buffer, h: History, w: CaptureWindow)
    requires IsReadable(b, h) && Monotone(Stamps(b.ring.frames))
    ensures var isThere, isDecodable := HoldsFrameIn(b.ring.frames, w), HoldsKeyframeUpTo(b.ring.frames, w.endNs);
      && (Extract(b, w) == Failure(RingRejected(WindowNotInBuffer)) <==> !isThere)
      && (Extract(b, w) == Failure(RingRejected(NoDecodableStart)) <==> isThere && !isDecodable)
      && (Extract(b, w).Success? <==> isThere && isDecodable)
  {
    MonotoneQueryIsExact(b.ring, w);
    var selected := Select(Stamps(b.ring.frames), w);
    SelectIsExact(Stamps(b.ring.frames), w);
    if selected.Failure? {
      ExtractFails(b, w);
    } else {
      ExtractShows(b, h, |h.frames| - |b.ring.frames|, w, selected.value);
    }
  }

  lemma ExtractTellsTheTruth(b: Buffer, h: History, l: Laps, w: CaptureWindow)
    requires Related(b, h, l)
    ensures TellsTheTruth(b, h, w, Extract(b, w))
  {
    SuffixIsMonotone(b, h, l);
    ExtractFailsExactly(b, h, w);
    if StartIsLive(b, h, w) {
      LiveStartIsAnswered(b, h, w);
    }
    if Extract(b, w).Success? {
      HonestSegment(b, h, w);
    }
  }
}
