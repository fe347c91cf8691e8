/** The threads around the ring buffer: one source that delivers frames, any number of readers, some of
    them asleep until the future of their window has been captured, and one caller that stops the
    capture. One mutex guards index and arena; one condition variable tells of new frames. A step is
    what one thread does between two points where another may run. */
module CaptureFacade {
  import opened Outcomes
  import opened RingBuffers
  import opened RingBufferIndex
  import opened FrameArena
  import opened RingHistory

  datatype Thread = SourceThread | StopThread | ReaderThread(id: nat)

  /** onFrame: wait for the mutex, ingest, unlock, notify. */
  datatype SourcePoint =
    | AtRest
    | WantsLock(frame: CapturedFrame)
    | Ingesting(frame: CapturedFrame)
    | Unlocking(accepted: bool)
    | OwesNotify
    | Escaped  // an exception that onFrame does not catch

  /** stopCapture: clear the flag under the mutex, notify, stop the source, close the arena under the mutex. */
  datatype StopPoint =
    | NotCalled
    | WantsFlagLock
    | ClearingFlag
    | UnlockingFlag
    | StopOwesNotify
    | StoppingSource
    | WantsCloseLock
    | Closing
    | UnlockingClosed
    | Stopped

  /** readWindow and extractCaptureWindow; only the second one waits. */
  datatype ReaderPoint =
    | Outside
    | Entered
    | Evaluating
    | Sleeping
    | Relocking(timedOut: bool)
    | Awake
    | Reading
    | Leaving
    | Gone

  datatype Reader = Reader(
    window: CaptureWindow,
    waits: bool,
    timedOut: bool,
    at: ReaderPoint,
    result: Option<Result<ExtractedSegment, IngestError>>)

  /** `delivered` records the frames the source has called back with, `ingested` those that were passed on to
      the buffer, accepted or not. */
  datatype Facade = Facade(
    buffer: Buffer,
    delivered: seq<CapturedFrame>,
    ingested: seq<CapturedFrame>,
    isCapturing: bool,
    holder: Option<Thread>,
    source: SourcePoint,
    stop: StopPoint,
    readers: map<nat, Reader>)

  /** The condition a waiting reader sleeps on. */
  predicate HasReached(r: RingState, targetTsNs: Nanoseconds) {
    r.frames != [] && r.frames[|r.frames| - 1].captureTsNs >= targetTsNs
  }

  predicate MayProceed(s: Facade, w: Window) {
    !s.isCapturing || HasReached(s.buffer.ring, w.endNs)
  }

  /** notify_all: every sleeper goes on to lock the mutex again. */
  function NotifyAll(readers: map<nat, Reader>): map<nat, Reader> {
    map id | id in readers :: if readers[id].at == Sleeping then readers[id].(at := Relocking(false)) else readers[id]
  }

  /** What a step of stop caller or reader does to the mutex: the thread locks it when it goes where it holds
      it, which it can only when nobody does, and unlocks it when it leaves. */
  predicate CanGo(s: Facade, isHolding: bool, willHold: bool) {
    willHold && !isHolding ==> s.holder == None
  }

  function HolderAfter(s: Facade, thread: Thread, isHolding: bool, willHold: bool): Option<Thread> {
    if willHold then Some(thread) else if isHolding then None else s.holder
  }

  // ---------------------------------------------------------- source steps

  /** The source calls back while it has not been stopped. */
  ghost predicate Deliver(s: Facade, t: Facade, frame: CapturedFrame) {
    && s.source == AtRest && !IsSourceStopped(s)
    && t == s.(source := WantsLock(frame), delivered := s.delivered + [frame])
  }

  ghost predicate SourceLocks(s: Facade, t: Facade) {
    && s.source.WantsLock? && s.holder == None
    && t == s.(source := Ingesting(s.source.frame), holder := Some(SourceThread))
  }

  /** A domain error is counted and dropped; an error of the arena is not caught. */
  ghost predicate SourceIngests(s: Facade, t: Facade) {
    && s.source.Ingesting?
    && var (buffer, r) := Ingest(s.buffer, s.source.frame);
    && var u := s.(buffer := buffer, ingested := s.ingested + [s.source.frame]);
    && t == match r
            case Success(_) => u.(source := Unlocking(true))
            case Failure(RingRejected(_)) => u.(source := Unlocking(false))
            case Failure(StoreRejected(_)) => u.(source := Escaped, holder := None)
  }

  ghost predicate SourceUnlocks(s: Facade, t: Facade) {
    s.source.Unlocking? && t == s.(source := if s.source.accepted then OwesNotify else AtRest, holder := None)
  }

  ghost predicate SourceNotifies(s: Facade, t: Facade) {
    s.source == OwesNotify && t == s.(source := AtRest, readers := NotifyAll(s.readers))
  }

  // ------------------------------------------------------------ stop steps

  predicate IsSourceStopped(s: Facade) {
    s.stop == WantsCloseLock || s.stop == Closing || s.stop == UnlockingClosed || s.stop == Stopped
  }

  predicate StopHolds(at: StopPoint) {
    at == ClearingFlag || at == UnlockingFlag || at == Closing || at == UnlockingClosed
  }

  predicate StopGoes(s: Facade, to: StopPoint) {
    match s.stop
    case NotCalled => to == WantsFlagLock
    case WantsFlagLock => to == ClearingFlag
    case ClearingFlag => to == UnlockingFlag
    case UnlockingFlag => to == StopOwesNotify
    case StopOwesNotify => to == StoppingSource
    // stopping the source waits for a callback that is under way
    case StoppingSource => s.source == AtRest && to == WantsCloseLock
    case WantsCloseLock => to == Closing
    case Closing => to == UnlockingClosed
    case UnlockingClosed => to == Stopped
    case Stopped => false
  }

  function StopAfter(s: Facade, to: StopPoint): Facade {
    s.(stop := to,
       holder := HolderAfter(s, StopThread, StopHolds(s.stop), StopHolds(to)),
       isCapturing := s.isCapturing && s.stop != ClearingFlag,
       readers := if s.stop == StopOwesNotify then NotifyAll(s.readers) else s.readers,
       buffer := if s.stop == Closing then s.buffer.(isClosed := true) else s.buffer)
  }

  ghost predicate StopSteps(s: Facade, t: Facade) {
    StopGoes(s, t.stop) && CanGo(s, StopHolds(s.stop), StopHolds(t.stop)) && t == StopAfter(s, t.stop)
  }

  // ---------------------------------------------------------- reader steps

  ghost predicate Arrive(s: Facade, t: Facade, id: nat, window: CaptureWindow, waits: bool) {
    id !in s.readers && t == s.(readers := s.readers[id := Reader(window, waits, false, Outside, None)])
  }

  predicate ReaderHolds(at: ReaderPoint) {
    at == Entered || at == Evaluating || at == Awake || at == Reading || at == Leaving
  }

  predicate ReaderGoes(s: Facade, r: Reader, to: ReaderPoint) {
    match r.at
    case Outside => to == Entered
    case Entered => to == if !s.isCapturing then Leaving else if r.waits then Evaluating else Reading
    case Evaluating => to == if MayProceed(s, r.window) then Awake else Sleeping
    // a sleeper may wake by itself: its time is up, or for no reason
    case Sleeping => to == Relocking(true) || to == Relocking(false)
    case Relocking(timedOut) => to == if timedOut then Awake else Evaluating
    case Awake => to == if s.isCapturing then Reading else Leaving
    case Reading => to == Leaving
    case Leaving => to == Gone
    case Gone => false
  }

  /** Who wakes up because its time is up remembers it; who reads leaves with what it copied. */
  function ReaderAfter(b: Buffer, r: Reader, to: ReaderPoint): Reader {
    r.(at := to,
       timedOut := r.timedOut || r.at == Relocking(true),
       result := if r.at == Reading then Some(Extract(b, r.window)) else r.result)
  }

  function Moved(s: Facade, id: nat, to: ReaderPoint): Facade
    requires id in s.readers
  {
    var r := s.readers[id];
    s.(readers := s.readers[id := ReaderAfter(s.buffer, r, to)],
       holder := HolderAfter(s, ReaderThread(id), ReaderHolds(r.at), ReaderHolds(to)))
  }

  ghost predicate ReaderSteps(s: Facade, t: Facade, id: nat) {
    && id in s.readers && id in t.readers
    && ReaderGoes(s, s.readers[id], t.readers[id].at)
    && CanGo(s, ReaderHolds(s.readers[id].at), ReaderHolds(t.readers[id].at))
    && t == Moved(s, id, t.readers[id].at)
  }

  ghost predicate Next(s: Facade, t: Facade) {
    || (exists frame :: Deliver(s, t, frame))
    || SourceLocks(s, t) || SourceIngests(s, t) || SourceUnlocks(s, t) || SourceNotifies(s, t)
    || StopSteps(s, t)
    || (exists id, window, waits :: Arrive(s, t, id, window, waits))
    || (exists id :: ReaderSteps(s, t, id))
  }

  // ------------------------------------------------------------- invariant

  predicate SourceHolds(at: SourcePoint) {
    at.Ingesting? || at.Unlocking?
  }

  ghost predicate MutexIsSound(s: Facade) {
    && (SourceHolds(s.source) <==> s.holder == Some(SourceThread))
    && (StopHolds(s.stop) <==> s.holder == Some(StopThread))
    && (forall id :: id in s.readers ==> (ReaderHolds(s.readers[id].at) <==> s.holder == Some(ReaderThread(id))))
    && (forall id :: s.holder == Some(ReaderThread(id)) ==> id in s.readers)
  }

  ghost predicate FlagIsSound(s: Facade) {
    && (s.isCapturing <==> s.stop == NotCalled || s.stop == WantsFlagLock || s.stop == ClearingFlag)
    && (forall id :: id in s.readers && s.readers[id].at == Reading ==> s.isCapturing)
  }

  ghost predicate ArenaIsSound(s: Facade) {
    && (s.buffer.isClosed <==> s.stop == UnlockingClosed || s.stop == Stopped)
    && (IsSourceStopped(s) ==> s.source == AtRest)
    && s.source != Escaped
  }

  /** Somebody is on the way to notify the sleepers. */
  predicate NotifyIsOwed(s: Facade) {
    s.source == Unlocking(true) || s.source == OwesNotify || s.stop == UnlockingFlag || s.stop == StopOwesNotify
  }

  /** No wakeup is lost: a sleeper that may proceed is about to be notified. */
  ghost predicate NoLostWakeup(s: Facade) {
    forall id :: id in s.readers && s.readers[id].at == Sleeping && MayProceed(s, s.readers[id].window) ==>
      NotifyIsOwed(s)
  }

  /** The buffer is what ingesting those frames one by one makes of an empty one over the given bytes. */
  ghost predicate IsRunOver(s: Facade, arena: seq<byte>) {
    var capacity := s.buffer.ring.capacity;
    0 < capacity <= |arena| && s.buffer.(isClosed := false) == Run(capacity, arena, s.ingested)
  }

  ghost predicate BufferIsSound(s: Facade) {
    exists arena :: IsRunOver(s, arena)
  }

  /** No reader was ever turned away by the arena. */
  ghost predicate ResultsAreSound(s: Facade) {
    forall id :: id in s.readers && s.readers[id].result.Some? && s.readers[id].result.value.Failure?
                 ==> s.readers[id].result.value.error.RingRejected?
  }

  ghost predicate Control(s: Facade) {
    MutexIsSound(s) && FlagIsSound(s) && ArenaIsSound(s) && NoLostWakeup(s)
  }

  ghost predicate Inv(s: Facade) {
    Control(s) && BufferIsSound(s) && ResultsAreSound(s)
  }

  ghost predicate Init(s: Facade) {
    && s.isCapturing && s.holder == None && s.source == AtRest && s.stop == NotCalled && s.readers == map[]
    && s.buffer.ring.capacity > 0 && s.buffer.ring == EmptyRing(s.buffer.ring.capacity)
    && !s.buffer.isClosed && |s.buffer.arena| >= s.buffer.ring.capacity
    && s.ingested == [] && s.delivered == []
  }

  lemma InitIsSound(s: Facade)
    requires Init(s)
    ensures Inv(s)
  {
    assert IsRunOver(s, s.buffer.arena);
  }

  // ------------------------------------------------------------ the proofs

  lemma DeliverKeepsInv(s: Facade, t: Facade, frame: CapturedFrame)
    requires Inv(s) && Deliver(s, t, frame)
    ensures Inv(t)
  {
    SameBuffer(s, t);
  }

  lemma SameBuffer(s: Facade, t: Facade)
    requires BufferIsSound(s)
    requires t.buffer.(isClosed := false) == s.buffer.(isClosed := false) && t.ingested == s.ingested
    ensures BufferIsSound(t)
  {
    var arena :| IsRunOver(s, arena);
    assert IsRunOver(t, arena);
  }

  lemma SourceLocksKeepsInv(s: Facade, t: Facade)
    requires Inv(s) && SourceLocks(s, t)
    ensures Inv(t)
  {
    SameBuffer(s, t);
  }

  /** What an ingest under the mutex comes to. */
  lemma IngestOutcome(s: Facade, arena: seq<byte>, frame: CapturedFrame)
    requires IsRunOver(s, arena) && !s.buffer.isClosed
    ensures var (buffer, r) := Ingest(s.buffer, frame);
      && buffer == Run(s.buffer.ring.capacity, arena, s.ingested + [frame])
      && buffer.ring.capacity == s.buffer.ring.capacity && !buffer.isClosed
      && (r.Failure? ==> buffer == s.buffer && r.error.RingRejected?)
  {
    var capacity, inputs := s.buffer.ring.capacity, s.ingested + [frame];
    assert inputs[..|inputs| - 1] == s.ingested;
    assert s.buffer.(isClosed := false) == s.buffer;
    var l := RunRelated(capacity, arena, s.ingested);
    var l' := IngestRelated(s.buffer, HistoryOf(capacity, s.ingested), l, frame);
  }

  /** A rejected frame leaves the ring as it was, so it owes nobody a notification. */
  lemma IngestKeepsControl(s: Facade, t: Facade, buffer: Buffer, accepted: bool)
    requires Control(s) && s.source.Ingesting?
    requires t == s.(buffer := buffer, source := Unlocking(accepted), ingested := t.ingested)
    requires buffer.isClosed == s.buffer.isClosed && (!accepted ==> buffer == s.buffer)
    ensures Control(t)
  {
  }

  lemma SourceIngestsKeepsInv(s: Facade, t: Facade)
    requires Inv(s) && SourceIngests(s, t)
    ensures Inv(t)
  {
    var arena :| IsRunOver(s, arena);
    IngestOutcome(s, arena, s.source.frame);
    var (buffer, r) := Ingest(s.buffer, s.source.frame);
    IngestKeepsControl(s, t, buffer, r.Success?);
    assert buffer.(isClosed := false) == buffer;
    assert IsRunOver(t, arena);
  }

  lemma SourceUnlocksKeepsInv(s: Facade, t: Facade)
    requires Inv(s) && SourceUnlocks(s, t)
    ensures Inv(t)
  {
    SameBuffer(s, t);
  }

  lemma SourceNotifiesKeepsInv(s: Facade, t: Facade)
    requires Inv(s) && SourceNotifies(s, t)
    ensures Inv(t)
  {
    SameBuffer(s, t);
  }

  lemma StopKeepsMutex(s: Facade, t: Facade)
    requires Control(s) && StopSteps(s, t)
    ensures MutexIsSound(t)
  {
  }

  lemma StopKeepsFlagAndArena(s: Facade, t: Facade)
    requires Control(s) && StopSteps(s, t)
    ensures FlagIsSound(t) && ArenaIsSound(t)
  {
  }

  lemma StopKeepsWakeups(s: Facade, t: Facade)
    requires Control(s) && StopSteps(s, t)
    ensures NoLostWakeup(t)
  {
  }

  lemma StopStepsKeepInv(s: Facade, t: Facade)
    requires Inv(s) && StopSteps(s, t)
    ensures Inv(t)
  {
    StopKeepsMutex(s, t);
    StopKeepsFlagAndArena(s, t);
    StopKeepsWakeups(s, t);
    SameBuffer(s, t);
  }

  lemma ArriveKeepsInv(s: Facade, t: Facade, id: nat, window: CaptureWindow, waits: bool)
    requires Inv(s) && Arrive(s, t, id, window, waits)
    ensures Inv(t)
  {
    SameBuffer(s, t);
  }

  lemma ReaderMovesAlone(s: Facade, t: Facade, id: nat)
    requires ReaderSteps(s, t, id) && (ReaderHolds(s.readers[id].at) <==> s.holder == Some(ReaderThread(id)))
    ensures t.source == s.source && t.stop == s.stop && t.readers == s.readers[id := t.readers[id]]
    ensures t.holder == s.holder || (s.holder == None && t.holder == Some(ReaderThread(id)))
                                 || (s.holder == Some(ReaderThread(id)) && t.holder == None)
    ensures ReaderHolds(t.readers[id].at) <==> t.holder == Some(ReaderThread(id))
  {
  }

  lemma ReaderKeepsMutex(s: Facade, t: Facade, id: nat)
    requires MutexIsSound(s) && ReaderSteps(s, t, id)
    ensures MutexIsSound(t)
  {
    ReaderMovesAlone(s, t, id);
  }

  lemma ReaderKeepsWakeups(s: Facade, t: Facade, id: nat)
    requires MutexIsSound(s) && NoLostWakeup(s) && ReaderSteps(s, t, id)
    ensures NoLostWakeup(t)
  {
    ReaderMovesAlone(s, t, id);
  }

  lemma ReaderKeepsTheRest(s: Facade, t: Facade, id: nat)
    requires Control(s) && ReaderSteps(s, t, id)
    ensures FlagIsSound(t) && ArenaIsSound(t) && NoLostWakeup(t)
    ensures s.readers[id].at == Reading ==> !s.buffer.isClosed
  {
    ReaderKeepsWakeups(s, t, id);
  }

  lemma ReaderKeepsResults(s: Facade, t: Facade, id: nat, got: Result<ExtractedSegment, IngestError>)
    requires ResultsAreSound(s) && ReaderSteps(s, t, id)
    requires s.readers[id].at == Reading ==> got == Extract(s.buffer, s.readers[id].window)
    requires got.Failure? ==> got.error.RingRejected?
    ensures ResultsAreSound(t)
  {
  }

  lemma ReaderStepsKeepInv(s: Facade, t: Facade, id: nat)
    requires Inv(s) && ReaderSteps(s, t, id)
    ensures Inv(t)
  {
    ReaderKeepsMutex(s, t, id);
    ReaderKeepsTheRest(s, t, id);
    SameBuffer(s, t);
    var got := if s.readers[id].at == Reading then Extract(s.buffer, s.readers[id].window)
               else Failure(RingRejected(NoDecodableStart));
    if s.readers[id].at == Reading {
      ReadingFailsOnlyForTheRing(s, id);
    }
    ReaderKeepsResults(s, t, id, got);
  }

  lemma ReadingFailsOnlyForTheRing(s: Facade, id: nat)
    requires BufferIsSound(s) && !s.buffer.isClosed && id in s.readers
    ensures var got := Extract(s.buffer, s.readers[id].window); got.Failure? ==> got.error.RingRejected?
  {
    var arena :| IsRunOver(s, arena);
    assert s.buffer.(isClosed := false) == s.buffer;
    var l := RunRelated(s.buffer.ring.capacity, arena, s.ingested);
    ExtractNeedsOnlyRing(s.buffer, HistoryOf(s.buffer.ring.capacity, s.ingested), l, s.readers[id].window);
  }

  lemma ExtractNeedsOnlyRing(b: Buffer, h: History, l: Laps, w: CaptureWindow)
    requires Related(b, h, l)
    ensures Extract(b, w).Failure? ==> Extract(b, w).error.RingRejected?
  {
    var selected := SegmentSelection.Select(SegmentSelection.Stamps(b.ring.frames), w);
    if selected.Failure? {
      ExtractFails(b, w);
    } else {
      ExtractShows(b, h, |h.frames| - |b.ring.frames|, w, selected.value);
    }
  }

  lemma NextKeepsInv(s: Facade, t: Facade)
    requires Inv(s) && Next(s, t)
    ensures Inv(t)
  {
    if frame :| Deliver(s, t, frame) {
      DeliverKeepsInv(s, t, frame);
    } else if SourceLocks(s, t) {
      SourceLocksKeepsInv(s, t);
    } else if SourceIngests(s, t) {
      SourceIngestsKeepsInv(s, t);
    } else if SourceUnlocks(s, t) {
      SourceUnlocksKeepsInv(s, t);
    } else if SourceNotifies(s, t) {
      SourceNotifiesKeepsInv(s, t);
    } else if StopSteps(s, t) {
      StopStepsKeepInv(s, t);
    } else if id, window, waits :| Arrive(s, t, id, window, waits) {
      ArriveKeepsInv(s, t, id, window, waits);
    } else if id :| ReaderSteps(s, t, id) {
      ReaderStepsKeepInv(s, t, id);
    }
  }

  ghost predicate NextAt(run: seq<Facade>, i: nat)
    requires i + 1 < |run|
  {
    Next(run[i], run[i + 1])
  }

  ghost predicate IsInterleaving(run: seq<Facade>) {
    run != [] && Init(run[0]) && forall i :: 0 <= i < |run| - 1 ==> NextAt(run, i)
  }

  lemma {:induction false} InvHolds(run: seq<Facade>, i: nat)
    requires IsInterleaving(run) && i < |run|
    ensures Inv(run[i])
  {
    if i == 0 {
      InitIsSound(run[0]);
    } else {
      InvHolds(run, i - 1);
      assert NextAt(run, i - 1);
      NextKeepsInv(run[i - 1], run[i]);
    }
  }

  /** The step from s to t writes or reads the arena. */
  ghost predicate TouchesArena(s: Facade, t: Facade) {
    SourceIngests(s, t) || exists id :: id in s.readers && s.readers[id].at == Reading && ReaderSteps(s, t, id)
  }

  /** In every interleaving the arena is neither written nor read once it is closed, no arena error
      escapes from the source's callback, and none reaches a reader. */
  lemma ArenaIsNeverTouchedAfterClose(run: seq<Facade>, i: nat)
    requires IsInterleaving(run) && i < |run|
    ensures i + 1 < |run| && TouchesArena(run[i], run[i + 1]) ==> !run[i].buffer.isClosed
    ensures run[i].source != Escaped
    ensures ResultsAreSound(run[i])
  {
    InvHolds(run, i);
    if i + 1 < |run| {
      if id :| id in run[i].readers && run[i].readers[id].at == Reading && ReaderSteps(run[i], run[i + 1], id) {
        ReaderKeepsTheRest(run[i], run[i + 1], id);
      }
    }
  }

  /** In every interleaving a reader that sleeps though it may proceed is about to be notified. */
  lemma NoWakeupIsLost(run: seq<Facade>, i: nat, id: nat)
    requires IsInterleaving(run) && i < |run|
    requires id in run[i].readers && run[i].readers[id].at == Sleeping && MayProceed(run[i], run[i].readers[id].window)
    ensures NotifyIsOwed(run[i])
  {
    InvHolds(run, i);
  }

  /** The step from s to t copies a window for reader id, or finds that it cannot. */
  ghost predicate CopiesWindow(s: Facade, t: Facade, id: nat) {
    id in s.readers && s.readers[id].at == Reading && ReaderSteps(s, t, id)
  }

  ghost predicate IsToldTheTruth(s: Facade, t: Facade, id: nat)
    requires CopiesWindow(s, t, id)
  {
    && t.readers[id].result.Some?
    && TellsTheTruth(s.buffer, HistoryOf(s.buffer.ring.capacity, s.ingested), s.readers[id].window,
                     t.readers[id].result.value)
  }

  /** In every interleaving what a reader is given is the truth, errors included, measured against every
      frame the source had passed on by then. */
  lemma EveryReaderIsToldTheTruth(run: seq<Facade>, i: nat, id: nat)
    requires IsInterleaving(run) && i + 1 < |run|
    ensures CopiesWindow(run[i], run[i + 1], id) ==> IsToldTheTruth(run[i], run[i + 1], id)
  {
    if CopiesWindow(run[i], run[i + 1], id) {
      InvHolds(run, i);
      ReaderKeepsTheRest(run[i], run[i + 1], id);
      BufferTellsTheTruth(run[i], run[i].readers[id].window);
    }
  }

  lemma BufferTellsTheTruth(s: Facade, w: CaptureWindow)
    requires BufferIsSound(s) && !s.buffer.isClosed
    ensures TellsTheTruth(s.buffer, HistoryOf(s.buffer.ring.capacity, s.ingested), w, Extract(s.buffer, w))
  {
    var arena :| IsRunOver(s, arena);
    assert s.buffer.(isClosed := false) == s.buffer;
    var l := RunRelated(s.buffer.ring.capacity, arena, s.ingested);
    ExtractTellsTheTruth(s.buffer, HistoryOf(s.buffer.ring.capacity, s.ingested), l, w);
  }
}
