/** What ingesting a frame answers, in terms of the list that never evicts and of the bytes of the arena. */
module IngestAnswers {
  import opened Outcomes
  import opened RingBuffers
  import opened RingBufferIndex
  import opened FrameArena
  import opened RingHistory

  /** The newest accepted frame of the session is younger than this one. */
  predicate ComesTooLate(h: History, f: CapturedFrame) {
    && h.hasSession && h.sessionId == f.sessionId && h.frames != []
    && f.captureTsNs < h.frames[|h.frames| - 1].captureTsNs
  }

  predicate FitsArena(capacity: nat, f: CapturedFrame) {
    1 <= |f.data| <= capacity
  }

  predicate ChangesSession(h: History, f: CapturedFrame) {
    h.hasSession && h.sessionId != f.sessionId
  }

  ghost predicate ShareByte(a: FrameDescriptor, b: FrameDescriptor) {
    exists position: nat :: a.Holds(position) && b.Holds(position)
  }

  /** The frames that were live are the k left behind by a pointer that turned around, then the evicted ones,
      each of which lost a byte to the new frame, then those still live, which lost none. */
  ghost predicate IsSplit(live: seq<FrameDescriptor>, pointer: nat, capacity: nat, k: nat,
                          evicted: seq<FrameDescriptor>, d: FrameDescriptor, after: seq<FrameDescriptor>)
  {
    && k + |evicted| <= |live|
    && live[k..k + |evicted|] == evicted
    && after == live[k + |evicted|..] + [d]
    && (forall f :: f in evicted ==> ShareByte(f, d))
    && (forall f :: f in live[k + |evicted|..] ==> !ShareByte(f, d))
    && (if pointer + d.length > capacity then (forall i :: 0 <= i < |live| ==> (i < k <==> live[i].offset >= pointer))
        else k == 0)
  }

  /** An answer to an accepted frame, given the ring before and after. */
  ghost predicate TellsPlacement(r: RingState, h: History, f: CapturedFrame, a: Allocation, after: RingState) {
    var live := if ChangesSession(h, f) then [] else r.frames;
    var pointer := if ChangesSession(h, f) then 0 else r.writeOffset;
    && (a.sessionRestarted <==> ChangesSession(h, f))
    && a.descriptor == FrameDescriptor(h.acceptedTotal, f.captureTsNs,
                                       if pointer + |f.data| > r.capacity then 0 else pointer, |f.data|,
                                       f.isKeyframe, f.sessionId)
    && exists k :: IsSplit(live, pointer, r.capacity, k, a.evicted, a.descriptor, after.frames)
  }

  /** The answer in full: each error for its own reason and no other, and otherwise where the frame lies,
      which frames it cost, and whether a new session began. */
  ghost predicate IsRightAnswer(b: Buffer, h: History, f: CapturedFrame) {
    var (after, r) := Ingest(b, f);
    && (r == Failure(RingRejected(FrameTooLarge)) <==> !FitsArena(b.ring.capacity, f))
    && (r == Failure(RingRejected(NonMonotonicTimestamp)) <==> FitsArena(b.ring.capacity, f) && ComesTooLate(h, f))
    && (r.Success? <==> FitsArena(b.ring.capacity, f) && !ComesTooLate(h, f))
    && (r.Success? ==> TellsPlacement(b.ring, h, f, r.value, after.ring))
  }

  lemma RejectedForItsReason(b: Buffer, h: History, l: Laps, f: CapturedFrame)
    requires Agrees(b, h, l)
    ensures Rejection(b.ring, f.captureTsNs, |f.data|, f.sessionId) ==
      if !FitsArena(b.ring.capacity, f) then Some(FrameTooLarge)
      else if ComesTooLate(h, f) then Some(NonMonotonicTimestamp) else None
  {
    var live, all := b.ring.frames, h.frames;
    if live != [] {
      assert ShowsAt(b.arena, live, all, |live| - 1);
    }
  }

  lemma OverwrittenShareBytes(r: RingState, length: nat, f: FrameDescriptor, d: FrameDescriptor)
    requires f.length > 0 && length > 0 && d.offset == OffsetFor(r, length) && d.length == length
    ensures Overwritten(r, length, f) <==> ShareByte(f, d)
  {
    OccupiesIsSharing(f, d.offset, d.EndOffset());
    if position: nat :| f.Holds(position) && d.offset <= position < d.EndOffset() {
      assert d.Holds(position);
    }
  }

  lemma SplitByBytes(r: RingState, length: nat, k: nat, m: nat, d: FrameDescriptor)
    requires PopsFromFront(r, length, k, m) && forall i :: 0 <= i < |r.frames| ==> r.frames[i].length > 0
    requires length > 0 && d.offset == OffsetFor(r, length) && d.length == length
    ensures forall f :: f in r.frames[k..m] ==> ShareByte(f, d)
    ensures forall f :: f in r.frames[m..] ==> !ShareByte(f, d)
  {
    forall f | f in r.frames[k..m] ensures ShareByte(f, d) {
      var i :| k <= i < m && r.frames[i] == f;
      OverwrittenShareBytes(r, length, f, d);
    }
    forall f | f in r.frames[m..] ensures !ShareByte(f, d) {
      var i :| m <= i < |r.frames| && r.frames[i] == f;
      OverwrittenShareBytes(r, length, f, d);
    }
  }

  lemma LeftBehindFirst(r: RingState, length: nat, k: nat, m: nat)
    requires PopsFromFront(r, length, k, m)
    ensures !Wraps(r, length) ==> k == 0
    ensures Wraps(r, length) ==> forall i :: 0 <= i < |r.frames| ==> (i < k <==> r.frames[i].offset >= r.writeOffset)
  {
    if k > 0 {
      assert LeftBehind(r, length, r.frames[0]);
    }
    if Wraps(r, length) {
      forall i | 0 <= i < |r.frames| ensures i < k <==> r.frames[i].offset >= r.writeOffset {
        assert LeftBehind(r, length, r.frames[i]) <==> i < k;
      }
    }
  }

  /** The frames that die at the front, told by the bytes they share with the new one. */
  lemma DoomedShareBytes(r: RingState, l: Laps, ts: Nanoseconds, length: nat, isKeyframe: bool) returns (k: nat)
    requires LaidOut(r, l) && 0 < length <= r.capacity
    ensures var (after, d) := Place(r, ts, length, isKeyframe);
      IsSplit(r.frames, r.writeOffset, r.capacity, k, Evicted(r, length), d, after.frames)
  {
    var m;
    k, m := DoomedPrefix(r, l, length);
    PlacedState(r, ts, length, isKeyframe, k, m);
    LaidOutRegions(r, l);
    SplitByBytes(r, length, k, m, Place(r, ts, length, isKeyframe).1);
    LeftBehindFirst(r, length, k, m);
    assert k + |r.frames[k..m]| == m;
  }

  lemma AcceptedIsPlaced(b: Buffer, f: CapturedFrame)
    requires Rejection(b.ring, f.captureTsNs, |f.data|, f.sessionId).None? && !b.isClosed
    requires InArena(b.arena, OffsetFor(InSession(b.ring, f.sessionId), |f.data|), |f.data|)
    ensures var s := InSession(b.ring, f.sessionId);
      var (placed, d) := Place(s, f.captureTsNs, |f.data|, f.isKeyframe);
      && Ingest(b, f).0.ring == placed
      && Ingest(b, f).1 == Success(Allocation(d, Evicted(s, |f.data|), RestartsSession(b.ring, f.sessionId)))
  {
  }

  /** The session the frame belongs to, as the list knows it. */
  lemma SessionIsKnown(b: Buffer, h: History, l: Laps, f: CapturedFrame)
    requires Agrees(b, h, l)
    ensures RestartsSession(b.ring, f.sessionId) <==> ChangesSession(h, f)
    ensures var s := InSession(b.ring, f.sessionId);
      && s.frames == (if ChangesSession(h, f) then [] else b.ring.frames)
      && s.writeOffset == (if ChangesSession(h, f) then 0 else b.ring.writeOffset)
      && s.sessionId == f.sessionId && s.nextSequence == h.acceptedTotal && s.capacity == b.ring.capacity
  {
  }

  lemma PlacementIsTold(b: Buffer, h: History, l: Laps, f: CapturedFrame)
    requires Agrees(b, h, l) && FitsArena(b.ring.capacity, f) && !ComesTooLate(h, f)
    ensures Ingest(b, f).1.Success?
    ensures TellsPlacement(b.ring, h, f, Ingest(b, f).1.value, Ingest(b, f).0.ring)
  {
    RejectedForItsReason(b, h, l, f);
    var s := InSession(b.ring, f.sessionId);
    SessionIsKnown(b, h, l, f);
    SessionSwitchAgrees(b, h, l, f.sessionId);
    var k := DoomedShareBytes(s, LapsIn(b.ring, l, f.sessionId), f.captureTsNs, |f.data|, f.isKeyframe);
    AcceptedIsPlaced(b, f);
    var a, after := Ingest(b, f).1.value, Ingest(b, f).0.ring;
    assert IsSplit(s.frames, s.writeOffset, s.capacity, k, a.evicted, a.descriptor, after.frames);
  }

  lemma AnswerIsRight(b: Buffer, h: History, l: Laps, f: CapturedFrame)
    requires Agrees(b, h, l)
    ensures IsRightAnswer(b, h, f)
  {
    RejectedForItsReason(b, h, l, f);
    if Rejection(b.ring, f.captureTsNs, |f.data|, f.sessionId).None? {
      PlacementIsTold(b, h, l, f);
    } else {
      RejectionChangesNothing(b, f);
    }
  }

  /** After every run of ingests, whatever was accepted, rejected or evicted before. */
  lemma EveryAnswerIsRight(capacity: nat, arena: seq<byte>, inputs: seq<CapturedFrame>, f: CapturedFrame)
    requires 0 < capacity <= |arena|
    ensures IsRightAnswer(Run(capacity, arena, inputs), HistoryOf(capacity, inputs), f)
  {
    var l := RunRelated(capacity, arena, inputs);
    AnswerIsRight(Run(capacity, arena, inputs), HistoryOf(capacity, inputs), l, f);
  }
}
