/** How a capture ends: once stopCapture has told the sleepers, no reader sleeps again and each leaves
    within four of its own steps; stopCapture itself returns within eight of its own; and there is always
    somebody who can take the next one. */
module CaptureShutdown {
  import opened Outcomes
  import opened FrameArena
  import opened CaptureFacade

  /** stopCapture has cleared the flag and notified the readers. */
  predicate HasTold(s: Facade) {
    s.stop == StoppingSource || IsSourceStopped(s)
  }

  ghost predicate NobodySleeps(s: Facade) {
    forall id :: id in s.readers ==> s.readers[id].at != Sleeping
  }

  // ------------------------------------------------------ readers wake up

  lemma StopTells(s: Facade, t: Facade)
    requires StopSteps(s, t) && (HasTold(s) ==> NobodySleeps(s))
    ensures HasTold(t) ==> NobodySleeps(t)
  {
  }

  lemma ReaderStaysAwake(s: Facade, t: Facade, id: nat)
    requires Inv(s) && ReaderSteps(s, t, id) && (HasTold(s) ==> NobodySleeps(s))
    ensures HasTold(t) ==> NobodySleeps(t)
  {
    assert t.stop == s.stop && t.readers == s.readers[id := t.readers[id]];
    if HasTold(s) {
      assert !s.isCapturing;
    }
  }

  ghost predicate SourceSteps(s: Facade, t: Facade) {
    SourceLocks(s, t) || SourceIngests(s, t) || SourceUnlocks(s, t) || SourceNotifies(s, t)
  }

  /** What the steps of source and arriving readers do to the others: they wake sleepers at most. */
  ghost predicate OnlyWakes(s: Facade, t: Facade) {
    && t.stop == s.stop && t.isCapturing == s.isCapturing
    && (forall id :: id in s.readers ==>
          id in t.readers && (t.readers[id].at == s.readers[id].at
                              || (s.readers[id].at == Sleeping && t.readers[id].at == Relocking(false))))
    && (forall id :: id in t.readers && id !in s.readers ==> t.readers[id].at == Outside)
  }

  lemma SourceOnlyWakes(s: Facade, t: Facade)
    requires SourceSteps(s, t)
    ensures OnlyWakes(s, t)
  {
  }

  lemma NextIsOneOf(s: Facade, t: Facade)
    requires Next(s, t)
    ensures StopSteps(s, t) || (exists id :: ReaderSteps(s, t, id)) || OnlyWakes(s, t)
  {
    if SourceSteps(s, t) {
      SourceOnlyWakes(s, t);
    }
  }

  lemma NextKeepsAwake(s: Facade, t: Facade)
    requires Inv(s) && Next(s, t) && (HasTold(s) ==> NobodySleeps(s))
    ensures HasTold(t) ==> NobodySleeps(t)
  {
    NextIsOneOf(s, t);
    if StopSteps(s, t) {
      StopTells(s, t);
    } else if id :| ReaderSteps(s, t, id) {
      ReaderStaysAwake(s, t, id);
    }
  }

  /** In every interleaving: once stopCapture has notified the readers, none of them is asleep. */
  lemma {:induction false} NobodySleepsOnceTold(run: seq<Facade>, i: nat)
    requires IsInterleaving(run) && i < |run|
    ensures HasTold(run[i]) ==> NobodySleeps(run[i])
  {
    if i > 0 {
      InvHolds(run, i - 1);
      NobodySleepsOnceTold(run, i - 1);
      assert NextAt(run, i - 1);
      NextKeepsAwake(run[i - 1], run[i]);
    }
  }

  // -------------------------------------------------------- readers leave

  /** How many of its own steps a reader has left at most, once the capture has stopped. */
  function StepsToLeave(at: ReaderPoint): nat {
    match at
    case Gone => 0
    case Leaving => 1
    case Entered => 2
    case Awake => 2
    case Reading => 2
    case Outside => 3
    case Evaluating => 3
    case Relocking(timedOut) => if timedOut then 3 else 4
    case Sleeping => 5
  }

  lemma ReaderComesNearer(s: Facade, t: Facade, id: nat)
    requires ReaderSteps(s, t, id) && !s.isCapturing
    ensures t.isCapturing == s.isCapturing && t.readers == s.readers[id := t.readers[id]]
    ensures StepsToLeave(t.readers[id].at) < StepsToLeave(s.readers[id].at)
  {
  }

  ghost predicate IsNoFarther(s: Facade, t: Facade, id: nat)
    requires id in s.readers
  {
    id in t.readers && StepsToLeave(t.readers[id].at) <= StepsToLeave(s.readers[id].at)
  }

  lemma OthersDoNotHold(s: Facade, t: Facade, id: nat)
    requires Inv(s) && Next(s, t) && id in s.readers && !s.isCapturing
    ensures !t.isCapturing && IsNoFarther(s, t, id)
  {
    NextIsOneOf(s, t);
    if StopSteps(s, t) {
      StopDoesNotHold(s, t, id);
    } else if other :| ReaderSteps(s, t, other) {
      ReaderComesNearer(s, t, other);
    }
  }

  lemma StopDoesNotHold(s: Facade, t: Facade, id: nat)
    requires StopSteps(s, t) && id in s.readers && !s.isCapturing
    ensures !t.isCapturing && IsNoFarther(s, t, id)
  {
  }

  ghost function OneIf(b: bool): nat {
    if b then 1 else 0
  }

  lemma ReaderApproachesBy(s: Facade, t: Facade, id: nat)
    requires Inv(s) && Next(s, t) && id in s.readers && !s.isCapturing
    ensures id in t.readers && !t.isCapturing
    ensures StepsToLeave(t.readers[id].at) + OneIf(ReaderSteps(s, t, id)) <= StepsToLeave(s.readers[id].at)
  {
    OthersDoNotHold(s, t, id);
    if ReaderSteps(s, t, id) {
      ReaderComesNearer(s, t, id);
    }
  }

  lemma ReaderApproachesAt(run: seq<Facade>, j: nat, id: nat)
    requires IsInterleaving(run) && 0 < j < |run| && id in run[j - 1].readers && !run[j - 1].isCapturing
    ensures id in run[j].readers && !run[j].isCapturing
    ensures StepsToLeave(run[j].readers[id].at) + OneIf(ReaderSteps(run[j - 1], run[j], id))
      <= StepsToLeave(run[j - 1].readers[id].at)
  {
    InvHolds(run, j - 1);
    assert NextAt(run, j - 1);
    ReaderApproachesBy(run[j - 1], run[j], id);
  }

  /** The steps of reader id between states i and j of a run. */
  ghost function ReaderMoves(run: seq<Facade>, i: nat, j: nat, id: nat): nat
    requires j < |run|
    decreases j
  {
    if j <= i then 0
    else ReaderMoves(run, i, j - 1, id) + OneIf(ReaderSteps(run[j - 1], run[j], id))
  }

  lemma {:induction false} ReaderApproaches(run: seq<Facade>, i: nat, j: nat, id: nat)
    requires IsInterleaving(run) && i <= j < |run| && id in run[i].readers && !run[i].isCapturing
    ensures id in run[j].readers && !run[j].isCapturing
    ensures StepsToLeave(run[j].readers[id].at) + ReaderMoves(run, i, j, id) <= StepsToLeave(run[i].readers[id].at)
    decreases j
  {
    if i < j {
      ReaderApproaches(run, i, j - 1, id);
      ReaderApproachesAt(run, j, id);
    }
  }

  /** In every interleaving: a reader that is there once stopCapture has notified is never asleep again and
      leaves within four steps of its own, whatever the others do. */
  lemma EveryReaderLeaves(run: seq<Facade>, i: nat, j: nat, id: nat)
    requires IsInterleaving(run) && i <= j < |run| && HasTold(run[i]) && id in run[i].readers
    ensures id in run[j].readers && run[j].readers[id].at != Sleeping
    ensures ReaderMoves(run, i, j, id) >= 4 ==> run[j].readers[id].at == Gone
  {
    InvHolds(run, i);
    NobodySleepsOnceTold(run, i);
    ReaderApproaches(run, i, j, id);
    StopGoesOn(run, i, j);
    NobodySleepsOnceTold(run, j);
  }

  // ----------------------------------------------------- stopCapture returns

  function StepsToStop(at: StopPoint): nat {
    match at
    case NotCalled => 9
    case WantsFlagLock => 8
    case ClearingFlag => 7
    case UnlockingFlag => 6
    case StopOwesNotify => 5
    case StoppingSource => 4
    case WantsCloseLock => 3
    case Closing => 2
    case UnlockingClosed => 1
    case Stopped => 0
  }

  ghost function StopMoves(run: seq<Facade>, i: nat, j: nat): nat
    requires j < |run|
    decreases j
  {
    if j <= i then 0 else StopMoves(run, i, j - 1) + OneIf(StopSteps(run[j - 1], run[j]))
  }

  lemma StopIsLeftAlone(s: Facade, t: Facade)
    requires Next(s, t)
    ensures StepsToStop(t.stop) + OneIf(StopSteps(s, t)) == StepsToStop(s.stop)
    ensures HasTold(s) ==> HasTold(t)
  {
    if StopSteps(s, t) {
      StopAdvances(s, t);
    } else {
      NextIsOneOf(s, t);
      if id :| ReaderSteps(s, t, id) {
        ReaderLeavesStop(s, t, id);
      }
    }
  }

  lemma StopAdvances(s: Facade, t: Facade)
    requires StopSteps(s, t)
    ensures StepsToStop(t.stop) + 1 == StepsToStop(s.stop) && (HasTold(s) ==> HasTold(t))
  {
  }

  lemma ReaderLeavesStop(s: Facade, t: Facade, id: nat)
    requires ReaderSteps(s, t, id)
    ensures t.stop == s.stop
  {
  }

  lemma {:induction false} StopGoesOn(run: seq<Facade>, i: nat, j: nat)
    requires IsInterleaving(run) && i <= j < |run|
    ensures StepsToStop(run[j].stop) + StopMoves(run, i, j) == StepsToStop(run[i].stop)
    ensures HasTold(run[i]) ==> HasTold(run[j])
    decreases j
  {
    if i < j {
      StopGoesOn(run, i, j - 1);
      assert NextAt(run, j - 1);
      StopIsLeftAlone(run[j - 1], run[j]);
    }
  }

  /** In every interleaving: stopCapture, once called, returns after eight steps of its own, and by then the
      arena is closed. */
  lemma StopReturns(run: seq<Facade>, i: nat, j: nat)
    requires IsInterleaving(run) && i <= j < |run| && run[i].stop != NotCalled
    ensures StopMoves(run, i, j) >= 8 ==> run[j].stop == Stopped
    ensures run[j].stop == Stopped ==> run[j].buffer.isClosed && run[j].source == AtRest
  {
    StopGoesOn(run, i, j);
    InvHolds(run, j);
  }

  // ------------------------------------------------- nobody waits for ever

  /** The thread that holds the mutex takes its next step. */
  ghost predicate HolderSteps(s: Facade, t: Facade) {
    match s.holder
    case Some(SourceThread) => SourceIngests(s, t) || SourceUnlocks(s, t)
    case Some(StopThread) => StopSteps(s, t)
    case Some(ReaderThread(id)) => ReaderSteps(s, t, id)
    case None => false
  }

  lemma HolderCanMove(s: Facade)
    requires Inv(s) && s.holder.Some?
    ensures exists t :: HolderSteps(s, t)
  {
    match s.holder.value
    case SourceThread =>
      SourceCanMove(s);
      var t :| SourceIngests(s, t) || SourceUnlocks(s, t);
      assert HolderSteps(s, t);
    case StopThread =>
      StopCanMove(s);
      var t :| StopSteps(s, t);
      assert HolderSteps(s, t);
    case ReaderThread(id) =>
      ReaderCanMove(s, id);
      var t :| ReaderSteps(s, t, id);
      assert HolderSteps(s, t);
  }

  lemma SourceCanMove(s: Facade)
    requires s.source.Ingesting? || s.source.Unlocking?
    ensures exists t :: SourceIngests(s, t) || SourceUnlocks(s, t)
  {
    if s.source.Unlocking? {
      var t := s.(source := if s.source.accepted then OwesNotify else AtRest, holder := None);
      assert SourceUnlocks(s, t);
    } else {
      var (buffer, r) := Ingest(s.buffer, s.source.frame);
      var u := s.(buffer := buffer, ingested := s.ingested + [s.source.frame]);
      var t := match r
               case Success(_) => u.(source := Unlocking(true))
               case Failure(RingRejected(_)) => u.(source := Unlocking(false))
               case Failure(StoreRejected(_)) => u.(source := Escaped, holder := None);
      assert SourceIngests(s, t);
    }
  }

  lemma StopCanMove(s: Facade)
    requires s.stop != Stopped && (s.stop == StoppingSource ==> s.source == AtRest)
    requires s.stop == WantsFlagLock || s.stop == WantsCloseLock ==> s.holder == None
    ensures exists t :: StopSteps(s, t)
  {
    var to :=
      match s.stop
      case NotCalled => WantsFlagLock
      case WantsFlagLock => ClearingFlag
      case ClearingFlag => UnlockingFlag
      case UnlockingFlag => StopOwesNotify
      case StopOwesNotify => StoppingSource
      case StoppingSource => WantsCloseLock
      case WantsCloseLock => Closing
      case Closing => UnlockingClosed
      case _ => Stopped;
    assert StopSteps(s, StopAfter(s, to));
  }

  lemma ReaderCanMove(s: Facade, id: nat)
    requires id in s.readers && s.readers[id].at != Gone && s.readers[id].at != Sleeping
    requires s.readers[id].at == Outside || s.readers[id].at.Relocking? ==> s.holder == None
    ensures exists t :: ReaderSteps(s, t, id)
  {
    var r := s.readers[id];
    var to :=
      match r.at
      case Outside => Entered
      case Entered => if !s.isCapturing then Leaving else if r.waits then Evaluating else Reading
      case Evaluating => if MayProceed(s, r.window) then Awake else Sleeping
      case Relocking(timedOut) => if timedOut then Awake else Evaluating
      case Awake => if s.isCapturing then Reading else Leaving
      case Reading => Leaving
      case _ => Gone;
    assert ReaderSteps(s, Moved(s, id, to), id);
  }

  /** In every interleaving, while stopCapture is under way it can take its next step, or the holder of the
      mutex can, or it waits for a callback of the source that can. */
  lemma StopIsNeverStuck(run: seq<Facade>, i: nat)
    requires IsInterleaving(run) && i < |run| && run[i].stop != Stopped
    ensures (exists t :: StopSteps(run[i], t)) || (exists t :: HolderSteps(run[i], t))
      || (run[i].source != AtRest && exists t :: SourceSteps(run[i], t))
  {
    InvHolds(run, i);
    var s := run[i];
    if s.holder.Some? {
      HolderCanMove(s);
    } else if s.stop == StoppingSource && s.source != AtRest {
      var t := if s.source.WantsLock? then s.(source := Ingesting(s.source.frame), holder := Some(SourceThread))
               else s.(source := AtRest, readers := NotifyAll(s.readers));
      assert SourceSteps(s, t);
    } else {
      StopCanMove(s);
    }
  }

  /** And so it is with a reader that has not left once the sleepers were told. */
  lemma ReaderIsNeverStuck(run: seq<Facade>, i: nat, id: nat)
    requires IsInterleaving(run) && i < |run| && HasTold(run[i])
    requires id in run[i].readers && run[i].readers[id].at != Gone
    ensures (exists t :: ReaderSteps(run[i], t, id)) || exists t :: HolderSteps(run[i], t)
  {
    InvHolds(run, i);
    NobodySleepsOnceTold(run, i);
    if run[i].holder.Some? {
      HolderCanMove(run[i]);
    } else {
      ReaderCanMove(run[i], id);
    }
  }
}
