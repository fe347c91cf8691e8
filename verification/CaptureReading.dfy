/** That the service serves: every frame the source delivers is passed on, no reader is turned away while the
    capture runs, and each has its answer after a few steps of its own. */
module CaptureReading {
  import opened Outcomes
  import opened RingBuffers
  import opened SegmentSelection
  import opened FrameArena
  import opened RingHistory
  import opened CaptureFacade
  import opened CaptureShutdown

  // ----------------------------------------------------------- the source

  /** The frame the callback holds in its hands. */
  function InHand(at: SourcePoint): seq<CapturedFrame> {
    match at
    case WantsLock(frame) => [frame]
    case Ingesting(frame) => [frame]
    case _ => []
  }

  ghost predicate NothingIsDropped(s: Facade) {
    s.delivered == s.ingested + InHand(s.source)
  }

  lemma ReadersLeaveSource(s: Facade, t: Facade)
    requires StopSteps(s, t) || exists id :: ReaderSteps(s, t, id)
    ensures t.source == s.source && t.delivered == s.delivered && t.ingested == s.ingested
  {
    if id :| ReaderSteps(s, t, id) {
      ReaderMovesAloneOnly(s, t, id);
    }
  }

  lemma ReaderMovesAloneOnly(s: Facade, t: Facade, id: nat)
    requires ReaderSteps(s, t, id)
    ensures t == s.(readers := t.readers, holder := t.holder) && t.readers == s.readers[id := t.readers[id]]
  {
  }

  lemma SourceDropsNothing(s: Facade, t: Facade)
    requires NothingIsDropped(s) && ((exists frame :: Deliver(s, t, frame)) || SourceSteps(s, t))
    ensures NothingIsDropped(t)
  {
  }

  lemma {:induction false} DroppedInNoState(run: seq<Facade>, i: nat)
    requires IsInterleaving(run) && i < |run|
    ensures NothingIsDropped(run[i])
  {
    if i > 0 {
      DroppedInNoState(run, i - 1);
      assert NextAt(run, i - 1);
      var s, t := run[i - 1], run[i];
      if (exists frame :: Deliver(s, t, frame)) || SourceSteps(s, t) {
        SourceDropsNothing(s, t);
      } else if StopSteps(s, t) || exists id :: ReaderSteps(s, t, id) {
        ReadersLeaveSource(s, t);
      }
    }
  }

  /** In every interleaving, whenever the callback is not under way the buffer is what ingesting every
      delivered frame, one by one and in order, makes of an empty one. */
  lemma EveryFrameIsPassedOn(run: seq<Facade>, i: nat)
    requires IsInterleaving(run) && i < |run|
    ensures run[i].delivered == run[i].ingested + InHand(run[i].source)
    ensures run[i].source == AtRest ==>
      exists arena :: 0 < run[i].buffer.ring.capacity <= |arena| &&
        run[i].buffer.(isClosed := false) == Run(run[i].buffer.ring.capacity, arena, run[i].delivered)
  {
    DroppedInNoState(run, i);
    InvHolds(run, i);
    var arena :| IsRunOver(run[i], arena);
    assert run[i].source == AtRest ==> run[i].ingested == run[i].delivered;
  }

  /** How many steps of its own a callback has left at most. */
  function StepsToRest(at: SourcePoint): nat {
    match at
    case WantsLock(_) => 4
    case Ingesting(_) => 3
    case Unlocking(accepted) => if accepted then 2 else 1
    case OwesNotify => 1
    case AtRest => 0
    case Escaped => 0
  }

  lemma SourceComesToRest(s: Facade, t: Facade)
    requires SourceSteps(s, t)
    ensures StepsToRest(t.source) < StepsToRest(s.source)
  {
  }

  /** A callback ends after four steps of its own, and nobody else lengthens it. */
  lemma CallbackEnds(s: Facade, t: Facade)
    requires Next(s, t) && s.source != AtRest
    ensures StepsToRest(t.source) <= StepsToRest(s.source) <= 4
    ensures SourceSteps(s, t) ==> StepsToRest(t.source) < StepsToRest(s.source)
    ensures StepsToRest(t.source) == 0 ==> t.source == AtRest || t.source == Escaped
  {
    if SourceSteps(s, t) {
      SourceComesToRest(s, t);
    } else if StopSteps(s, t) || exists id :: ReaderSteps(s, t, id) {
      ReadersLeaveSource(s, t);
    }
  }

  // -------------------------------------------------------------- readers

  /** No reader leaves without an answer while the capture runs, and one that does not wait never sleeps. */
  ghost predicate IsServed(s: Facade, id: nat)
    requires id in s.readers
  {
    var r := s.readers[id];
    && ((r.at == Leaving || r.at == Gone) && r.result == None ==> !s.isCapturing)
    && (!r.waits ==> r.at == Outside || r.at == Entered || r.at == Reading || r.at == Leaving || r.at == Gone)
  }

  ghost predicate AllAreServed(s: Facade) {
    forall id :: id in s.readers ==> IsServed(s, id)
  }

  lemma ReaderStaysServed(s: Facade, t: Facade, id: nat)
    requires ReaderSteps(s, t, id) && IsServed(s, id)
    ensures IsServed(t, id)
  {
    ReaderMovesAloneOnly(s, t, id);
  }

  /** What anybody but the reader does to it: it wakes it at most, and the capture is never started again. */
  lemma OthersOnlyWake(s: Facade, t: Facade, id: nat)
    requires Next(s, t) && !ReaderSteps(s, t, id) && id in s.readers
    ensures id in t.readers && (t.isCapturing ==> s.isCapturing)
    ensures || t.readers[id] == s.readers[id]
            || (s.readers[id].at == Sleeping && t.readers[id] == s.readers[id].(at := Relocking(false)))
  {
    if other :| ReaderSteps(s, t, other) {
      ReaderMovesAloneOnly(s, t, other);
    }
  }

  lemma NextKeepsServed(s: Facade, t: Facade)
    requires Next(s, t) && AllAreServed(s)
    ensures AllAreServed(t)
  {
    forall id | id in t.readers ensures IsServed(t, id) {
      if id in s.readers {
        assert IsServed(s, id);
        if ReaderSteps(s, t, id) {
          ReaderStaysServed(s, t, id);
        } else {
          OthersOnlyWake(s, t, id);
        }
      } else {
        NewcomersAreOutside(s, t, id);
      }
    }
  }

  lemma NewcomersAreOutside(s: Facade, t: Facade, id: nat)
    requires Next(s, t) && id in t.readers && id !in s.readers
    ensures t.readers[id].at == Outside
  {
    if other :| ReaderSteps(s, t, other) {
      ReaderMovesAloneOnly(s, t, other);
    }
  }

  lemma {:induction false} ServedInEveryState(run: seq<Facade>, i: nat)
    requires IsInterleaving(run) && i < |run|
    ensures AllAreServed(run[i])
  {
    if i > 0 {
      ServedInEveryState(run, i - 1);
      assert NextAt(run, i - 1);
      NextKeepsServed(run[i - 1], run[i]);
    }
  }

  /** In every interleaving: a reader that leaves with nothing does so because the capture was stopped. */
  lemma NobodyIsTurnedAway(run: seq<Facade>, i: nat, id: nat)
    requires IsInterleaving(run) && i < |run| && id in run[i].readers
    requires run[i].readers[id].at == Leaving || run[i].readers[id].at == Gone
    ensures run[i].readers[id].result.Some? || !run[i].isCapturing
  {
    ServedInEveryState(run, i);
    assert IsServed(run[i], id);
  }

  // ----------------------------------------------- what is waited for

  /** A live frame is stamped at the end of the window or after it. */
  ghost predicate HoldsEnd(s: Facade, w: CaptureWindow) {
    exists f :: f in s.buffer.ring.frames && f.captureTsNs >= w.endNs
  }

  lemma NewestIsLatest(frames: seq<FrameDescriptor>, endNs: Nanoseconds)
    requires Monotone(Stamps(frames))
    ensures frames != [] && frames[|frames| - 1].captureTsNs >= endNs <==>
      exists f :: f in frames && f.captureTsNs >= endNs
  {
    if f :| f in frames && f.captureTsNs >= endNs {
      var i :| 0 <= i < |frames| && frames[i] == f;
      assert Stamps(frames)[i].captureTsNs <= Stamps(frames)[|frames| - 1].captureTsNs;
    } else if frames != [] {
      assert frames[|frames| - 1] in frames;
    }
  }

  lemma LiveStampsAreMonotone(s: Facade)
    requires BufferIsSound(s)
    ensures Monotone(Stamps(s.buffer.ring.frames))
  {
    var arena :| IsRunOver(s, arena);
    LiveIndexIsSuffix(s.buffer.ring.capacity, arena, s.ingested);
  }

  /** Looking at the newest frame alone is enough. */
  lemma EndIsOfNewest(s: Facade, w: CaptureWindow)
    requires BufferIsSound(s)
    ensures HasReached(s.buffer.ring, w.endNs) <==> HoldsEnd(s, w)
  {
    LiveStampsAreMonotone(s);
    NewestIsLatest(s.buffer.ring.frames, w.endNs);
  }

  /** In every interleaving: a reader goes to sleep only while the capture runs, only if it waits, and only
      for frames that are yet to come. */
  lemma SleepsOnlyForTheFuture(run: seq<Facade>, i: nat, id: nat)
    requires IsInterleaving(run) && i + 1 < |run| && ReaderSteps(run[i], run[i + 1], id)
    requires run[i + 1].readers[id].at == Sleeping
    ensures run[i].isCapturing && run[i].readers[id].waits && !HoldsEnd(run[i], run[i].readers[id].window)
  {
    InvHolds(run, i);
    ServedInEveryState(run, i);
    assert IsServed(run[i], id);
    EndIsOfNewest(run[i], run[i].readers[id].window);
  }

  // ------------------------------------------------------ the way through

  /** Nothing keeps the reader waiting: it does not wait, or the end of its window is there, or its time is
      up or its wait over. */
  ghost predicate IsReady(s: Facade, id: nat)
    requires id in s.readers
  {
    var r := s.readers[id];
    || !r.waits || HoldsEnd(s, r.window)
    || r.at == Relocking(true) || r.at == Awake || r.at == Reading || r.at == Leaving || r.at == Gone
  }

  /** How many of its own steps a reader has left at most until it has its answer, while the capture runs. */
  function StepsToAnswer(waits: bool, at: ReaderPoint): nat {
    match at
    case Outside => if waits then 5 else 3
    case Entered => if waits then 4 else 2
    case Sleeping => 5
    case Relocking(timedOut) => if timedOut then 3 else 4
    case Evaluating => 3
    case Awake => 2
    case Reading => 1
    case Leaving => 0
    case Gone => 0
  }

  ghost function StepsLeft(s: Facade, id: nat): nat
    requires id in s.readers
  {
    StepsToAnswer(s.readers[id].waits, s.readers[id].at)
  }

  lemma ReaderComesToAnswer(s: Facade, t: Facade, id: nat)
    requires BufferIsSound(s) && ReaderSteps(s, t, id) && s.isCapturing && IsServed(s, id) && IsReady(s, id)
    ensures id in t.readers && t.readers[id].waits == s.readers[id].waits
    ensures StepsLeft(t, id) < StepsLeft(s, id) || (StepsLeft(s, id) == 0 && StepsLeft(t, id) == 0)
  {
    ReaderMovesAloneOnly(s, t, id);
    EndIsOfNewest(s, s.readers[id].window);
  }

  lemma NextBringsAnswer(s: Facade, t: Facade, id: nat)
    requires BufferIsSound(s) && Next(s, t) && id in s.readers && IsServed(s, id)
    requires s.isCapturing && IsReady(s, id)
    ensures id in t.readers && t.readers[id].waits == s.readers[id].waits
    ensures StepsLeft(t, id) + OneIf(ReaderSteps(s, t, id)) <= StepsLeft(s, id) || StepsLeft(t, id) == 0
  {
    if ReaderSteps(s, t, id) {
      ReaderComesToAnswer(s, t, id);
    } else {
      OthersOnlyWake(s, t, id);
    }
  }

  lemma StepBringsAnswer(run: seq<Facade>, j: nat, id: nat)
    requires IsInterleaving(run) && 0 < j < |run| && id in run[j - 1].readers
    requires run[j - 1].isCapturing && IsReady(run[j - 1], id)
    ensures id in run[j].readers && run[j].readers[id].waits == run[j - 1].readers[id].waits
    ensures StepsLeft(run[j], id) + OneIf(ReaderSteps(run[j - 1], run[j], id)) <= StepsLeft(run[j - 1], id)
            || StepsLeft(run[j], id) == 0
  {
    InvHolds(run, j - 1);
    ServedInEveryState(run, j - 1);
    assert NextAt(run, j - 1) && IsServed(run[j - 1], id);
    NextBringsAnswer(run[j - 1], run[j], id);
  }

  lemma {:induction false} AnswerComesNearer(run: seq<Facade>, i: nat, j: nat, id: nat)
    requires IsInterleaving(run) && i <= j < |run| && id in run[i].readers
    requires forall k :: i <= k < j && id in run[k].readers ==> run[k].isCapturing && IsReady(run[k], id)
    ensures id in run[j].readers && run[j].readers[id].waits == run[i].readers[id].waits
    ensures StepsLeft(run[j], id) + ReaderMoves(run, i, j, id) <= StepsLeft(run[i], id) || StepsLeft(run[j], id) == 0
    decreases j
  {
    if i < j {
      AnswerComesNearer(run, i, j - 1, id);
      StepBringsAnswer(run, j, id);
    }
  }

  /** In every interleaving, while the capture runs: a reader that does not wait has its answer after three
      steps of its own, and one that waits after five, once the end of its window is there or its time up. */
  lemma EveryReaderIsAnswered(run: seq<Facade>, i: nat, j: nat, id: nat)
    requires IsInterleaving(run) && i <= j < |run| && id in run[i].readers && run[j].isCapturing
    requires forall k :: i <= k < j && id in run[k].readers ==> run[k].isCapturing && IsReady(run[k], id)
    requires ReaderMoves(run, i, j, id) >= if run[i].readers[id].waits then 5 else 3
    ensures id in run[j].readers && run[j].readers[id].result.Some?
  {
    AnswerComesNearer(run, i, j, id);
    ServedInEveryState(run, i);
    ServedInEveryState(run, j);
    assert IsServed(run[i], id) && IsServed(run[j], id);
  }

  // --------------------------------------------------------- what may happen

  /** In every interleaving, while the capture runs nothing that is left to others is ruled out: the source at
      rest may deliver any frame, any reader may come with any window, and the time of a sleeper may be up. */
  lemma NothingIsRuledOut(run: seq<Facade>, i: nat, frame: CapturedFrame, id: nat, window: CaptureWindow, waits: bool)
    requires IsInterleaving(run) && i < |run| && run[i].isCapturing
    ensures run[i].source == AtRest ==>
      exists t :: Next(run[i], t) && t.source == WantsLock(frame) && t.delivered == run[i].delivered + [frame]
    ensures id !in run[i].readers ==>
      exists t :: Next(run[i], t) && t.readers == run[i].readers[id := Reader(window, waits, false, Outside, None)]
    ensures id in run[i].readers && run[i].readers[id].at == Sleeping ==>
      exists t :: Next(run[i], t) && id in t.readers && t.readers[id].at == Relocking(true)
  {
    InvHolds(run, i);
    var s := run[i];
    if s.source == AtRest {
      var t := s.(source := WantsLock(frame), delivered := s.delivered + [frame]);
      assert Deliver(s, t, frame) && Next(s, t);
    }
    if id !in s.readers {
      var t := s.(readers := s.readers[id := Reader(window, waits, false, Outside, None)]);
      assert Arrive(s, t, id, window, waits) && Next(s, t);
    } else if s.readers[id].at == Sleeping {
      assert ReaderSteps(s, Moved(s, id, Relocking(true)), id) && Next(s, Moved(s, id, Relocking(true)));
    }
  }

  /** And nobody is ever stuck: a callback that is under way and a reader that is awake can take their next
      step, or else the holder of the mutex can. */
  lemma NobodyIsStuck(run: seq<Facade>, i: nat, id: nat)
    requires IsInterleaving(run) && i < |run|
    ensures run[i].source != AtRest ==>
      (exists t :: SourceSteps(run[i], t)) || (exists t :: HolderSteps(run[i], t))
    ensures id in run[i].readers && run[i].readers[id].at != Gone && run[i].readers[id].at != Sleeping ==>
      (exists t :: ReaderSteps(run[i], t, id)) || (exists t :: HolderSteps(run[i], t))
  {
    InvHolds(run, i);
    var s := run[i];
    if s.holder.Some? {
      HolderCanMove(s);
    } else {
      if s.source != AtRest {
        var t := if s.source.WantsLock? then s.(source := Ingesting(s.source.frame), holder := Some(SourceThread))
                 else s.(source := AtRest, readers := NotifyAll(s.readers));
        assert SourceSteps(s, t);
      }
      if id in s.readers && s.readers[id].at != Gone && s.readers[id].at != Sleeping {
        ReaderCanMove(s, id);
      }
    }
  }
}
