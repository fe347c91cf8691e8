/** The ring buffer index as the service runs it: one object whose fields change in place. Every
    method is proved against the functions of RingBuffers and SegmentSelection. */
module RingBufferIndex {
  import opened Outcomes
  import opened RingBuffers
  import opened SegmentSelection

  type BufferCapacity = c: nat | c > 0 witness 1

  datatype BufferSegment = BufferSegment(
    requestedWindow: CaptureWindow,
    frames: seq<FrameDescriptor>,
    isTruncatedAtStart: bool,
    isTruncatedAtEnd: bool)

  datatype BufferStats = BufferStats(
    capacityBytes: nat,
    bytesUsed: nat,
    framesStored: nat,
    framesIngestedTotal: nat,
    framesEvictedTotal: nat,
    hasFrames: bool,
    oldestCaptureTsNs: Nanoseconds,
    newestCaptureTsNs: Nanoseconds,
    sessionId: string)

  function SegmentOf(r: RingState, w: CaptureWindow): Result<BufferSegment, RingError> {
    match Select(Stamps(r.frames), w)
    case Failure(error) => Failure(error)
    case Success(a) =>
      Success(BufferSegment(w, r.frames[a.first..a.last + 1], a.isTruncatedAtStart, a.isTruncatedAtEnd))
  }

  function TotalBytes(frames: seq<FrameDescriptor>): nat {
    if frames == [] then 0 else TotalBytes(frames[..|frames| - 1]) + frames[|frames| - 1].length
  }

  function SegmentBetween(frames: seq<FrameDescriptor>, w: CaptureWindow, start: nat, end: nat): BufferSegment
    requires start <= end < |frames|
  {
    BufferSegment(w, frames[start..end + 1], frames[start].captureTsNs > w.startNs,
                  frames[|frames| - 1].captureTsNs < w.endNs)
  }

  ghost predicate IsAbsent(frames: seq<FrameDescriptor>, w: CaptureWindow) {
    FirstWhere(Stamps(frames), (x: Stamp) => w.Contains(x.captureTsNs)) < 0
  }

  ghost function StartOf(frames: seq<FrameDescriptor>, w: CaptureWindow): Option<nat> {
    var i := StartIndex(Stamps(frames), w);
    if i < 0 then None else Some(i)
  }

  ghost function EndOf(frames: seq<FrameDescriptor>, w: CaptureWindow): nat {
    var i := EndIndex(Stamps(frames), w);
    if i < 0 then 0 else i
  }

  /** The answer, put together from what the three searches find. */
  lemma SegmentAssembles(r: RingState, w: CaptureWindow)
    ensures IsAbsent(r.frames, w) ==> SegmentOf(r, w) == Failure(WindowNotInBuffer)
    ensures !IsAbsent(r.frames, w) && StartOf(r.frames, w).None? ==> SegmentOf(r, w) == Failure(NoDecodableStart)
    ensures !IsAbsent(r.frames, w) && StartOf(r.frames, w).Some? ==>
      && StartOf(r.frames, w).value <= EndOf(r.frames, w) < |r.frames|
      && SegmentOf(r, w) == Success(SegmentBetween(r.frames, w, StartOf(r.frames, w).value, EndOf(r.frames, w)))
  {
    var s := Stamps(r.frames);
    if !IsAbsent(r.frames, w) && StartOf(r.frames, w).Some? {
      FoundEnds(r, w, Select(s, w).value);
      FoundSegment(r, w, Select(s, w).value);
    }
  }

  lemma FoundParts(s: seq<Stamp>, w: CaptureWindow, a: Selection)
    requires Select(s, w) == Success(a)
    ensures StartIndex(s, w) == a.first && EndIndex(s, w) == a.last && s != []
    ensures a.isTruncatedAtStart == (s[a.first].captureTsNs > w.startNs)
    ensures a.isTruncatedAtEnd == (s[|s| - 1].captureTsNs < w.endNs)
  {
  }

  lemma FoundEnds(r: RingState, w: CaptureWindow, a: Selection)
    requires Select(Stamps(r.frames), w) == Success(a)
    ensures StartOf(r.frames, w) == Some(a.first) && EndOf(r.frames, w) == a.last && a.first <= a.last < |r.frames|
  {
    FoundParts(Stamps(r.frames), w, a);
  }

  lemma FoundSegment(r: RingState, w: CaptureWindow, a: Selection)
    requires Select(Stamps(r.frames), w) == Success(a)
    ensures a.first <= a.last < |r.frames|
    ensures SegmentOf(r, w) == Success(SegmentBetween(r.frames, w, a.first, a.last))
  {
    FoundParts(Stamps(r.frames), w, a);
  }

  class RingBuffer {
    const capacity: nat
    var frames: seq<FrameDescriptor>
    var writeOffset: nat
    var nextSequence: nat
    var hasSession: bool
    var sessionId: string
    var ingestedTotal: nat
    var evictedTotal: nat
    ghost var laps: Laps

    ghost function State(): RingState
      reads this
    {
      RingState(capacity, frames, writeOffset, nextSequence, hasSession, sessionId, ingestedTotal, evictedTotal)
    }

    ghost predicate Valid()
      reads this
    {
      LaidOut(State(), laps) && (frames != [] ==> hasSession)
    }

    constructor (capacity: BufferCapacity)
      ensures Valid() && State() == EmptyRing(capacity)
    {
      this.capacity := capacity;
      frames, writeOffset, nextSequence := [], 0, 0;
      hasSession, sessionId := false, "";
      ingestedTotal, evictedTotal := 0, 0;
      laps := Laps(0, 0, 0);
    }

    // ------------------------------------------------------------- writing

    /** Reserves room for one frame. */
    method Allocate(captureTsNs: Nanoseconds, length: nat, isKeyframe: bool, session: string)
      returns (r: Result<Allocation, RingError>)
      requires Valid()
      modifies this
      ensures Valid()
      ensures (State(), r) == RingBuffers.Allocate(old(State()), captureTsNs, length, isKeyframe, session)
    {
      if IsTooLarge(length) {
        return Failure(FrameTooLarge);
      }
      var restarted := SwitchSessionIfNeeded(session);
      if ClockWentBackwards(captureTsNs) {
        return Failure(NonMonotonicTimestamp);
      }
      var descriptor, evicted := MakeRoomAndRegister(captureTsNs, length, isKeyframe, session);
      return Success(Allocation(descriptor, evicted, restarted));
    }

    /** The last steps of Allocate, once the frame is accepted. */
    method MakeRoomAndRegister(captureTsNs: Nanoseconds, length: nat, isKeyframe: bool, session: string)
      returns (descriptor: FrameDescriptor, evicted: seq<FrameDescriptor>)
      requires Valid() && hasSession && session == sessionId && 0 < length <= capacity
      modifies this
      ensures Valid()
      ensures (State(), descriptor) == Place(old(State()), captureTsNs, length, isKeyframe)
      ensures evicted == Evicted(old(State()), length)
    {
      ghost var before, lapsBefore := State(), laps;
      var offset;
      ghost var k;
      offset, evicted, k := MakeRoom(length);
      ghost var rest := frames;
      descriptor := RegisterFrame(captureTsNs, offset, length, isKeyframe, session);
      ghost var after := State();
      PopsMakeRoom(before, lapsBefore, captureTsNs, length, isKeyframe, k, evicted, rest, descriptor, after);
      laps := LapsAfter(before, lapsBefore, length, k + |evicted|);
      assert State() == after;
    }

    /** The offset, and the overlapped frames; k others were discarded before them. */
    method MakeRoom(length: nat) returns (offset: nat, evicted: seq<FrameDescriptor>, ghost k: nat)
      requires Valid() && 0 < length <= capacity
      modifies this`frames, this`evictedTotal
      ensures offset == RingBuffers.OffsetFor(old(State()), length)
      ensures StopsPopping(old(State()), length, k, evicted, frames)
      ensures evictedTotal == old(evictedTotal) + k + |evicted|
    {
      offset, k := OffsetFor(length);
      evicted := EvictOverlapping(offset, length);
    }

    predicate IsTooLarge(length: nat)
    {
      length == 0 || length > capacity
    }

    method SwitchSessionIfNeeded(session: string) returns (restarted: bool)
      requires Valid()
      modifies this
      ensures Valid() && hasSession
      ensures State() == InSession(old(State()), session)
      ensures restarted == RestartsSession(old(State()), session)
      ensures State() != old(State()) ==> frames == []
    {
      if !hasSession {
        hasSession := true;
        sessionId := session;
        return false;
      }
      if sessionId == session {
        return false;
      }
      evictedTotal := evictedTotal + |frames|;
      frames := [];
      writeOffset := 0;
      sessionId := session;
      laps := Laps(0, 0, 0);
      return true;
    }

    predicate ClockWentBackwards(captureTsNs: Nanoseconds)
      reads this
    {
      frames != [] && captureTsNs < frames[|frames| - 1].captureTsNs
    }

    /** Where the frame goes. When it does not fit before the end of the arena, the frames the last lap
        left ahead of the write pointer are discarded first. */
    method OffsetFor(length: nat) returns (offset: nat, ghost k: nat)
      requires Valid() && 0 < length <= capacity
      modifies this`frames, this`evictedTotal
      ensures offset == RingBuffers.OffsetFor(old(State()), length)
      ensures k <= |old(frames)| && frames == old(frames)[k..] && evictedTotal == old(evictedTotal) + k
      ensures forall i :: 0 <= i < k ==> LeftBehind(old(State()), length, old(frames)[i])
      ensures k < |old(frames)| ==> !LeftBehind(old(State()), length, old(frames)[k])
    {
      if writeOffset + length <= capacity {
        return writeOffset, 0;
      }
      k := DiscardFramesBeyondWritePointer();
      offset := 0;
    }

    method DiscardFramesBeyondWritePointer() returns (ghost k: nat)
      modifies this`frames, this`evictedTotal
      ensures k <= |old(frames)| && frames == old(frames)[k..] && evictedTotal == old(evictedTotal) + k
      ensures forall i :: 0 <= i < k ==> old(frames)[i].offset >= writeOffset
      ensures k < |old(frames)| ==> old(frames)[k].offset < writeOffset
    {
      k := 0;
      while frames != [] && frames[0].offset >= writeOffset
        invariant k <= |old(frames)| && frames == old(frames)[k..] && evictedTotal == old(evictedTotal) + k
        invariant forall i :: 0 <= i < k ==> old(frames)[i].offset >= writeOffset
        decreases |frames|
      {
        frames := frames[1..];
        evictedTotal := evictedTotal + 1;
        k := k + 1;
      }
    }

    method EvictOverlapping(offset: nat, length: nat) returns (evicted: seq<FrameDescriptor>)
      modifies this`frames, this`evictedTotal
      ensures old(frames) == evicted + frames && evictedTotal == old(evictedTotal) + |evicted|
      ensures forall f :: f in evicted ==> f.Occupies(offset, offset + length)
      ensures frames != [] ==> !frames[0].Occupies(offset, offset + length)
    {
      evicted := [];
      while frames != [] && frames[0].Occupies(offset, offset + length)
        invariant old(frames) == evicted + frames && evictedTotal == old(evictedTotal) + |evicted|
        invariant forall f :: f in evicted ==> f.Occupies(offset, offset + length)
        decreases |frames|
      {
        evicted := evicted + [frames[0]];
        frames := frames[1..];
        evictedTotal := evictedTotal + 1;
      }
    }

    method RegisterFrame(captureTsNs: Nanoseconds, offset: nat, length: nat, isKeyframe: bool, session: string)
      returns (descriptor: FrameDescriptor)
      modifies this`frames, this`writeOffset, this`nextSequence, this`ingestedTotal
      ensures descriptor == FrameDescriptor(old(nextSequence), captureTsNs, offset, length, isKeyframe, session)
      ensures frames == old(frames) + [descriptor] && writeOffset == descriptor.EndOffset()
      ensures nextSequence == old(nextSequence) + 1 && ingestedTotal == old(ingestedTotal) + 1
    {
      descriptor := FrameDescriptor(nextSequence, captureTsNs, offset, length, isKeyframe, session);
      frames := frames + [descriptor];
      writeOffset := offset + length;
      nextSequence := nextSequence + 1;
      ingestedTotal := ingestedTotal + 1;
    }

    // ------------------------------------------------------------- reading

    /** The decodable run of frames that covers the window, with its truncation flags. */
    method SegmentFor(window: CaptureWindow) returns (r: Result<BufferSegment, RingError>)
      ensures r == SegmentOf(State(), window)
    {
      SegmentAssembles(State(), window);
      var absent := IsWindowAbsent(frames, window);
      if absent {
        return Failure(WindowNotInBuffer);
      }
      var start := DecodableStartIndex(frames, window);
      if start.None? {
        return Failure(NoDecodableStart);
      }
      var end := LastIndexWithin(frames, window);
      return Success(SegmentBetween(frames, window, start.value, end));
    }

    static method IsWindowAbsent(frames: seq<FrameDescriptor>, window: CaptureWindow) returns (absent: bool)
      ensures absent <==> IsAbsent(frames, window)
    {
      for index := 0 to |frames|
        invariant forall i :: 0 <= i < index ==> !window.Contains(frames[i].captureTsNs)
      {
        if window.Contains(frames[index].captureTsNs) {
          assert window.Contains(Stamps(frames)[index].captureTsNs);
          return false;
        }
      }
      return true;
    }

    static method DecodableStartIndex(frames: seq<FrameDescriptor>, window: CaptureWindow) returns (r: Option<nat>)
      ensures r == StartOf(frames, window)
    {
      ghost var s := Stamps(frames);
      var foundBefore := false;
      var lastKeyframeBefore := 0;
      for index := 0 to |frames|
        invariant !foundBefore ==> forall i :: 0 <= i < index ==> !KeyframeBefore(window, s[i])
        invariant foundBefore ==> lastKeyframeBefore < index && KeyframeBefore(window, s[lastKeyframeBefore])
        invariant foundBefore ==> forall i :: lastKeyframeBefore < i < index ==> !KeyframeBefore(window, s[i])
      {
        if frames[index].isKeyframe && frames[index].captureTsNs <= window.startNs {
          lastKeyframeBefore := index;
          foundBefore := true;
        }
      }
      ghost var before := LastWhere(s, x => KeyframeBefore(window, x));
      if foundBefore {
        assert before == lastKeyframeBefore;
        return Some(lastKeyframeBefore);
      }
      assert before < 0;
      for index := 0 to |frames|
        invariant forall i :: 0 <= i < index ==> !KeyframeWithin(window, s[i])
      {
        if frames[index].isKeyframe && window.Contains(frames[index].captureTsNs) {
          assert KeyframeWithin(window, s[index]);
          return Some(index);
        }
      }
      return None;
    }

    static method LastIndexWithin(frames: seq<FrameDescriptor>, window: CaptureWindow) returns (last: nat)
      ensures last == EndOf(frames, window)
    {
      ghost var s := Stamps(frames);
      last := 0;
      ghost var found := false;
      for index := 0 to |frames|
        invariant found ==> last < index && s[last].captureTsNs <= window.endNs
        invariant forall i :: (if found then last + 1 else 0) <= i < index ==> s[i].captureTsNs > window.endNs
        invariant !found ==> last == 0
      {
        if frames[index].captureTsNs <= window.endNs {
          last := index;
          found := true;
        }
      }
      assert found ==> EndIndex(s, window) == last;
    }

    // ---------------------------------------------------------- inspection

    function NewestCaptureTsNs(): Nanoseconds
      reads this
    {
      if frames == [] then 0 else frames[|frames| - 1].captureTsNs
    }

    function OldestCaptureTsNs(): Nanoseconds
      reads this
    {
      if frames == [] then 0 else frames[0].captureTsNs
    }

    /** The counters, the bytes in use, and the stamps of the first and the last frame of the queue. */
    method Stats() returns (stats: BufferStats)
      ensures stats.capacityBytes == capacity && stats.sessionId == sessionId
      ensures stats.bytesUsed == TotalBytes(frames) && stats.framesStored == |frames|
      ensures stats.framesIngestedTotal == ingestedTotal && stats.framesEvictedTotal == evictedTotal
      ensures stats.hasFrames <==> frames != []
      ensures stats.oldestCaptureTsNs == if frames == [] then 0 else frames[0].captureTsNs
      ensures stats.newestCaptureTsNs == if frames == [] then 0 else frames[|frames| - 1].captureTsNs
    {
      var bytesUsed := 0;
      for index := 0 to |frames|
        invariant bytesUsed == TotalBytes(frames[..index])
      {
        assert frames[..index + 1][..index] == frames[..index];
        bytesUsed := bytesUsed + frames[index].length;
      }
      assert frames[..|frames|] == frames;
      stats := BufferStats(capacity, bytesUsed, |frames|, ingestedTotal, evictedTotal, frames != [],
                           OldestCaptureTsNs(), NewestCaptureTsNs(), sessionId);
    }
  }
}
