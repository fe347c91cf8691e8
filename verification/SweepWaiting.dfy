/** What waitForSweeps promises: nobody sleeps through the sweep it waits for, and the answer is true. */
module SweepWaiting {
  import opened Outcomes
  import opened PurgeDaemon

  /** A waiter that sleeps although enough sweeps are completed is about to be notified, what a waiter says is
      right while it says it, and it gives up only when its time is up. */
  ghost predicate WaiterIsSound(s: Daemon, id: nat)
    requires id in s.waiters
  {
    match s.waiters[id].at
    case Waiting => IsReached(s, id) ==> s.at == Announcing
    case Answering(reached) => (reached <==> IsReached(s, id)) && (reached || s.waiters[id].timedOut)
    case Answered(reached) => if reached then IsReached(s, id) else s.waiters[id].timedOut
    case _ => true
  }

  ghost predicate WaitersAreSound(s: Daemon) {
    forall id :: id in s.waiters ==> WaiterIsSound(s, id)
  }

  lemma DaemonCounts(s: Daemon, t: Daemon)
    requires DaemonSteps(s, t)
    ensures if s.at == Counting then t.at == Announcing && t.sweepsCompleted == s.sweepsCompleted + 1
            else t.sweepsCompleted == s.sweepsCompleted
    ensures t.waiters == if s.at == Announcing then Announced(s.waiters) else s.waiters
  {
  }

  lemma DaemonKeepsWaiters(s: Daemon, t: Daemon)
    requires WaitersAreSound(s) && MutexIsSound(s) && DaemonSteps(s, t)
    ensures WaitersAreSound(t)
  {
    DaemonCounts(s, t);
    forall id | id in t.waiters ensures WaiterIsSound(t, id) {
      assert WaiterIsSound(s, id);
    }
  }

  lemma WaiterKeepsWaiters(s: Daemon, t: Daemon, id: nat)
    requires WaitersAreSound(s) && WaiterSteps(s, t, id)
    ensures WaitersAreSound(t)
  {
    WaiterMovesOnlyItself(s, t, id);
    assert WaiterIsSound(s, id);
    WaiterStaysSound(s, t, id);
    forall other | other in t.waiters && other != id ensures WaiterIsSound(t, other) {
      assert WaiterIsSound(s, other);
    }
  }

  lemma WaiterStaysSound(s: Daemon, t: Daemon, id: nat)
    requires WaiterSteps(s, t, id) && WaiterIsSound(s, id)
    ensures id in t.waiters && WaiterIsSound(t, id)
  {
  }

  /** Requests, stops, wakeups of the daemon and whatever else happens count no sweep, move no waiter and do
      not hold the announcement back. */
  lemma OthersLeaveWaiters(s: Daemon, t: Daemon)
    requires || (exists id :: Calls(s, t, id)) || (exists id :: RequestSteps(s, t, id)) || StopSteps(s, t)
             || WakesUnasked(s, t)
             || exists isIntervalOver, isDiskFull :: ConditionsChange(s, t, isIntervalOver, isDiskFull)
    ensures t.waiters == s.waiters && t.sweepsCompleted == s.sweepsCompleted
    ensures s.at == Announcing ==> t.at == Announcing
  {
    if id :| RequestSteps(s, t, id) {
      RequestersDoNotDelay(s, t, id);
    }
  }

  lemma NewcomerKeepsWaiters(s: Daemon, t: Daemon, id: nat, count: nat)
    requires WaitersAreSound(s) && Waits(s, t, id, count)
    ensures WaitersAreSound(t)
  {
    forall other | other in t.waiters ensures WaiterIsSound(t, other) {
      assert other in s.waiters ==> WaiterIsSound(s, other);
    }
  }

  lemma SameWaitersStaySound(s: Daemon, t: Daemon)
    requires WaitersAreSound(s) && t.waiters == s.waiters && t.sweepsCompleted == s.sweepsCompleted
    requires s.at == Announcing ==> t.at == Announcing
    ensures WaitersAreSound(t)
  {
    forall id | id in t.waiters ensures WaiterIsSound(t, id) {
      assert WaiterIsSound(s, id);
    }
  }

  lemma NextKeepsWaiters(s: Daemon, move: Move, t: Daemon)
    requires WaitersAreSound(s) && MutexIsSound(s) && Next(s, move, t)
    ensures WaitersAreSound(t)
  {
    if move == ByDaemon {
      DaemonKeepsWaiters(s, t);
    } else if id :| WaiterSteps(s, t, id) {
      WaiterKeepsWaiters(s, t, id);
    } else if id, count :| Waits(s, t, id, count) {
      NewcomerKeepsWaiters(s, t, id, count);
    } else {
      OthersLeaveWaiters(s, t);
      SameWaitersStaySound(s, t);
    }
  }

  lemma {:induction false} WaitersSoundInEveryState(run: seq<Daemon>, moves: seq<Move>, i: nat)
    requires IsInterleaving(run, moves) && Init(run[0]) && i < |run|
    ensures WaitersAreSound(run[i])
  {
    if i > 0 {
      WaitersSoundInEveryState(run, moves, i - 1);
      InvHolds(run, moves, i - 1);
      assert Next(run[i - 1], moves[i - 1], run[i]);
      NextKeepsWaiters(run[i - 1], moves[i - 1], run[i]);
    }
  }

  /** In every interleaving: a waiter that sleeps although enough sweeps are completed is woken by the very
      next step of the daemon, which nothing can keep it from. */
  lemma NoSweepGoesUnnoticed(run: seq<Daemon>, moves: seq<Move>, i: nat, id: nat)
    requires IsInterleaving(run, moves) && Init(run[0]) && i < |run|
    requires id in run[i].waiters && run[i].waiters[id].at == Waiting && IsReached(run[i], id)
    ensures exists t :: DaemonSteps(run[i], t)
    ensures forall t :: DaemonSteps(run[i], t) ==> id in t.waiters && t.waiters[id].at == Rechecking(false)
  {
    WaitersSoundInEveryState(run, moves, i);
    assert WaiterIsSound(run[i], id);
    assert DaemonSteps(run[i], DaemonAfter(run[i], WantsRelock));
  }

  /** In every interleaving: a waiter answers, under the mutex, whether enough sweeps are completed; who was
      told that they are can rely on it from then on, and who was told that they are not had its time. */
  lemma AnswersAreTrue(run: seq<Daemon>, moves: seq<Move>, i: nat, id: nat)
    requires IsInterleaving(run, moves) && Init(run[0]) && i < |run| && id in run[i].waiters
    ensures var at := run[i].waiters[id].at;
      && (at.Answering? ==> (at.reached <==> IsReached(run[i], id)))
      && (at == Answered(true) ==> IsReached(run[i], id))
      && (at == Answering(false) || at == Answered(false) ==> run[i].waiters[id].timedOut)
  {
    WaitersSoundInEveryState(run, moves, i);
    assert WaiterIsSound(run[i], id);
  }

  // --------------------------------------------------------- the way out

  /** How many of its own steps a waiter has left at most, once enough sweeps are completed. */
  function StepsToAnswer(at: WaiterPoint): nat {
    match at
    case AwaitsLock => 3
    case Checking => 2
    case Waiting => 4
    case Rechecking(timedOut) => if timedOut then 2 else 3
    case Answering(_) => 1
    case Answered(_) => 0
  }

  lemma WaiterComesToAnswer(s: Daemon, t: Daemon, id: nat)
    requires WaiterSteps(s, t, id) && IsReached(s, id)
    ensures id in t.waiters && IsReached(t, id)
    ensures StepsToAnswer(t.waiters[id].at) < StepsToAnswer(s.waiters[id].at)
    ensures t.waiters[id].timedOut ==> s.waiters[id].timedOut || s.waiters[id].at == Rechecking(true)
  {
  }

  /** What anybody else does to a waiter: it wakes it at most. */
  lemma OthersWakeAtMost(s: Daemon, move: Move, t: Daemon, id: nat)
    requires Next(s, move, t) && !WaiterSteps(s, t, id) && id in s.waiters
    ensures id in t.waiters && t.sweepsCompleted >= s.sweepsCompleted
    ensures || t.waiters[id] == s.waiters[id]
            || (s.waiters[id].at == Waiting && t.waiters[id] == s.waiters[id].(at := Rechecking(false)))
  {
    if move == ByDaemon {
      DaemonCounts(s, t);
    } else if other :| WaiterSteps(s, t, other) {
      WaiterMovesOnlyItself(s, t, other);
    } else if other, count :| Waits(s, t, other, count) {
    } else {
      OthersLeaveWaiters(s, t);
    }
  }

  ghost function OneIf(b: bool): nat {
    if b then 1 else 0
  }

  /** The steps of waiter id between states i and j of a run. */
  ghost function WaiterMoves(run: seq<Daemon>, i: nat, j: nat, id: nat): nat
    requires j < |run|
    decreases j
  {
    if j <= i then 0 else WaiterMoves(run, i, j - 1, id) + OneIf(WaiterSteps(run[j - 1], run[j], id))
  }

  lemma {:induction false} AnswerComesNearer(run: seq<Daemon>, moves: seq<Move>, i: nat, j: nat, id: nat)
    requires IsInterleaving(run, moves) && i <= j < |run| && id in run[i].waiters && IsReached(run[i], id)
    ensures id in run[j].waiters && IsReached(run[j], id)
    ensures StepsToAnswer(run[j].waiters[id].at) + WaiterMoves(run, i, j, id) <= StepsToAnswer(run[i].waiters[id].at)
    decreases j
  {
    if i < j {
      AnswerComesNearer(run, moves, i, j - 1, id);
      assert Next(run[j - 1], moves[j - 1], run[j]);
      if WaiterSteps(run[j - 1], run[j], id) {
        WaiterComesToAnswer(run[j - 1], run[j], id);
      } else {
        OthersWakeAtMost(run[j - 1], moves[j - 1], run[j], id);
      }
    }
  }

  /** In every interleaving: once enough sweeps are completed a waiter answers within four steps of its own. */
  lemma EveryWaiterIsAnswered(run: seq<Daemon>, moves: seq<Move>, i: nat, j: nat, id: nat)
    requires IsInterleaving(run, moves) && Init(run[0]) && i <= j < |run|
    requires id in run[i].waiters && IsReached(run[i], id) && WaiterMoves(run, i, j, id) >= 4
    ensures id in run[j].waiters && run[j].waiters[id].at.Answered?
    ensures run[j].waiters[id].at.reached || run[j].waiters[id].timedOut
  {
    AnswerComesNearer(run, moves, i, j, id);
    AnswersAreTrue(run, moves, j, id);
  }
}
