/** The byte arena, and the two use cases that join it to the index: ingesting a frame and copying a
    window out. */
module FrameArena {
  import opened Outcomes
  import opened RingBuffers
  import opened SegmentSelection
  import opened RingBufferIndex

  datatype CapturedFrame = CapturedFrame(
    captureTsNs: Nanoseconds,
    data: seq<byte>,
    isKeyframe: bool,
    sessionId: string)

  datatype StoreError = ArenaClosed | OutsideArena

  datatype IngestError = RingRejected(ring: RingError) | StoreRejected(store: StoreError)

  datatype ExtractedFrame = ExtractedFrame(
    sequence: nat,
    captureTsNs: Nanoseconds,
    isKeyframe: bool,
    data: seq<byte>)

  datatype ExtractedSegment = ExtractedSegment(
    requestedWindow: CaptureWindow,
    sessionId: string,
    frames: seq<ExtractedFrame>,
    isTruncatedAtStart: bool,
    isTruncatedAtEnd: bool)

  /** Index and arena together. */
  datatype Buffer = Buffer(ring: RingState, arena: seq<byte>, isClosed: bool)

  predicate InArena(arena: seq<byte>, offset: nat, length: nat) {
    offset + length <= |arena|
  }

  function Access(b: Buffer, offset: nat, length: nat): Option<StoreError> {
    if b.isClosed then Some(ArenaClosed)
    else if !InArena(b.arena, offset, length) then Some(OutsideArena)
    else None
  }

  /** The arena with data laid over it. */
  function Overlay(arena: seq<byte>, offset: nat, data: seq<byte>): (r: seq<byte>)
    requires InArena(arena, offset, |data|)
    ensures |r| == |arena|
    ensures r[offset..offset + |data|] == data
    ensures forall i :: 0 <= i < |r| && !(offset <= i < offset + |data|) ==> r[i] == arena[i]
  {
    arena[..offset] + data + arena[offset + |data|..]
  }

  function Ingest(b: Buffer, f: CapturedFrame): (Buffer, Result<Allocation, IngestError>) {
    var (ring, reserved) := Allocate(b.ring, f.captureTsNs, |f.data|, f.isKeyframe, f.sessionId);
    match reserved
    case Failure(error) => (b, Failure(RingRejected(error)))
    case Success(allocation) =>
      var offset := allocation.descriptor.offset;
      match Access(b, offset, |f.data|)
      case Some(error) => (b.(ring := ring), Failure(StoreRejected(error)))
      case None => (b.(ring := ring, arena := Overlay(b.arena, offset, f.data)), Success(allocation))
  }

  function CopyFrame(b: Buffer, d: FrameDescriptor): Result<ExtractedFrame, StoreError> {
    match Access(b, d.offset, d.length)
    case Some(error) => Failure(error)
    case None => Success(ExtractedFrame(d.sequence, d.captureTsNs, d.isKeyframe, b.arena[d.offset..d.EndOffset()]))
  }

  function CopyFrames(b: Buffer, frames: seq<FrameDescriptor>): Result<seq<ExtractedFrame>, StoreError> {
    if frames == [] then Success([])
    else
      match CopyFrames(b, frames[..|frames| - 1])
      case Failure(error) => Failure(error)
      case Success(copied) =>
        match CopyFrame(b, frames[|frames| - 1])
        case Failure(error) => Failure(error)
        case Success(frame) => Success(copied + [frame])
  }

  function Extract(b: Buffer, w: CaptureWindow): Result<ExtractedSegment, IngestError> {
    match SegmentOf(b.ring, w)
    case Failure(error) => Failure(RingRejected(error))
    case Success(segment) =>
      match CopyFrames(b, segment.frames)
      case Failure(error) => Failure(StoreRejected(error))
      case Success(frames) =>
        Success(ExtractedSegment(w, segment.frames[0].sessionId, frames, segment.isTruncatedAtStart,
                                 segment.isTruncatedAtEnd))
  }

  lemma ExtractCopies(b: Buffer, w: CaptureWindow, a: Selection, copies: seq<ExtractedFrame>, sessionId: string)
    requires Select(Stamps(b.ring.frames), w) == Success(a)
    requires a.first <= a.last < |b.ring.frames| && CopyFrames(b, b.ring.frames[a.first..a.last + 1]) == Success(copies)
    requires b.ring.frames[a.first].sessionId == sessionId
    ensures Extract(b, w) == Success(ExtractedSegment(w, sessionId, copies, a.isTruncatedAtStart, a.isTruncatedAtEnd))
  {
  }

  /** The arena: a fixed block of bytes that can be closed once and for all. */
  class FrameStore {
    const arena: array<byte>
    var isClosed: bool

    constructor (capacityBytes: BufferCapacity)
      ensures fresh(arena) && arena.Length == capacityBytes && !isClosed
    {
      arena := new byte[capacityBytes];
      isClosed := false;
    }

    function RejectOutOfBounds(start: nat, end: nat): Option<StoreError>
      reads this
    {
      if isClosed then Some(ArenaClosed)
      else if end > arena.Length || end < start then Some(OutsideArena)
      else None
    }

    method Write(offset: nat, data: seq<byte>) returns (error: Option<StoreError>)
      modifies arena
      ensures error == if isClosed then Some(ArenaClosed)
                       else if offset + |data| > arena.Length then Some(OutsideArena) else None
      ensures arena[..] == if error.Some? then old(arena[..]) else Overlay(old(arena[..]), offset, data)
    {
      error := RejectOutOfBounds(offset, offset + |data|);
      if error.None? {
        forall i | 0 <= i < |data| {
          arena[offset + i] := data[i];
        }
        assert arena[..] == Overlay(old(arena[..]), offset, data);
      }
    }

    method Read(offset: nat, length: nat) returns (r: Result<seq<byte>, StoreError>)
      ensures r == if isClosed then Failure(ArenaClosed)
                   else if offset + length > arena.Length then Failure(OutsideArena)
                   else Success(arena[offset..offset + length])
    {
      var error := RejectOutOfBounds(offset, offset + length);
      if error.Some? {
        return Failure(error.value);
      }
      return Success(arena[offset..offset + length]);
    }

    method Close()
      modifies this`isClosed
      ensures isClosed
    {
      isClosed := true;
    }
  }

  ghost function BufferOf(ring: RingBuffer, store: FrameStore): Buffer
    reads ring, store, store.arena
  {
    Buffer(ring.State(), store.arena[..], store.isClosed)
  }

  /** An ingest, once the index has reserved room: the bytes are laid down or the store refuses. */
  lemma AllocatedThenWritten(b: Buffer, ring: RingState, allocation: Allocation, f: CapturedFrame)
    requires Allocate(b.ring, f.captureTsNs, |f.data|, f.isKeyframe, f.sessionId) == (ring, Success(allocation))
    ensures var offset := allocation.descriptor.offset;
      match Access(b, offset, |f.data|)
      case Some(error) => Ingest(b, f) == (b.(ring := ring), Failure(StoreRejected(error)))
      case None => Ingest(b, f) == (b.(ring := ring, arena := Overlay(b.arena, offset, f.data)), Success(allocation))
  {
  }

  /** Puts a frame that was just captured into the buffer: the index first, so that the descriptors of
      the bytes about to be overwritten are dead by then. */
  class IngestFrameUseCase {
    const ringBuffer: RingBuffer
    const frameStore: FrameStore

    constructor (ringBuffer: RingBuffer, frameStore: FrameStore)
      ensures this.ringBuffer == ringBuffer && this.frameStore == frameStore
    {
      this.ringBuffer, this.frameStore := ringBuffer, frameStore;
    }

    method Execute(frame: CapturedFrame) returns (r: Result<Allocation, IngestError>)
      requires ringBuffer.Valid()
      modifies ringBuffer, frameStore.arena
      ensures ringBuffer.Valid()
      ensures (BufferOf(ringBuffer, frameStore), r) == Ingest(old(BufferOf(ringBuffer, frameStore)), frame)
    {
      ghost var before := BufferOf(ringBuffer, frameStore);
      var reserved := ringBuffer.Allocate(frame.captureTsNs, |frame.data|, frame.isKeyframe, frame.sessionId);
      if reserved.Failure? {
        return Failure(RingRejected(reserved.error));
      }
      AllocatedThenWritten(before, ringBuffer.State(), reserved.value, frame);
      var error := frameStore.Write(reserved.value.descriptor.offset, frame.data);
      if error.Some? {
        return Failure(StoreRejected(error.value));
      }
      return Success(reserved.value);
    }
  }

  /** Copies the run of frames that covers a window out of the buffer. */
  class ExtractCaptureWindowUseCase {
    const ringBuffer: RingBuffer
    const frameStore: FrameStore

    constructor (ringBuffer: RingBuffer, frameStore: FrameStore)
      ensures this.ringBuffer == ringBuffer && this.frameStore == frameStore
    {
      this.ringBuffer, this.frameStore := ringBuffer, frameStore;
    }

    method Execute(window: CaptureWindow) returns (r: Result<ExtractedSegment, IngestError>)
      ensures r == Extract(BufferOf(ringBuffer, frameStore), window)
    {
      var selected := ringBuffer.SegmentFor(window);
      if selected.Failure? {
        return Failure(RingRejected(selected.error));
      }
      var segment := selected.value;
      var frames := CopyAll(segment.frames);
      if frames.Failure? {
        return Failure(StoreRejected(frames.error));
      }
      return Success(ExtractedSegment(window, segment.frames[0].sessionId, frames.value,
                                      segment.isTruncatedAtStart, segment.isTruncatedAtEnd));
    }

    method CopyAll(descriptors: seq<FrameDescriptor>) returns (r: Result<seq<ExtractedFrame>, StoreError>)
      ensures r == CopyFrames(BufferOf(ringBuffer, frameStore), descriptors)
    {
      ghost var b := BufferOf(ringBuffer, frameStore);
      var frames: seq<ExtractedFrame> := [];
      for index := 0 to |descriptors|
        invariant CopyFrames(b, descriptors[..index]) == Success(frames)
      {
        assert descriptors[..index + 1][..index] == descriptors[..index];
        var frame := Materialize(descriptors[index]);
        if frame.Failure? {
          CopyFailsEarly(b, descriptors, index + 1);
          return Failure(frame.error);
        }
        frames := frames + [frame.value];
      }
      assert descriptors[..|descriptors|] == descriptors;
      return Success(frames);
    }

    method Materialize(descriptor: FrameDescriptor) returns (r: Result<ExtractedFrame, StoreError>)
      ensures r == CopyFrame(BufferOf(ringBuffer, frameStore), descriptor)
    {
      var data := frameStore.Read(descriptor.offset, descriptor.length);
      if data.Failure? {
        return Failure(data.error);
      }
      return Success(ExtractedFrame(descriptor.sequence, descriptor.captureTsNs, descriptor.isKeyframe, data.value));
    }
  }

  lemma {:induction false} CopyFailsEarly(b: Buffer, frames: seq<FrameDescriptor>, k: nat)
    requires k <= |frames| && CopyFrames(b, frames[..k]).Failure?
    ensures CopyFrames(b, frames) == CopyFrames(b, frames[..k])
  {
    if k < |frames| {
      assert frames[..|frames| - 1][..k] == frames[..k];
      CopyFailsEarly(b, frames[..|frames| - 1], k);
    } else {
      assert frames[..k] == frames;
    }
  }
}
