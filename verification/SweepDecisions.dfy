/** When the daemon sweeps: at once when it is started, when it is asked to, when the interval is over and
    when the disk is at the trigger, and at no other time. */
module SweepDecisions {
  import opened Outcomes
  import opened PurgeDaemon

  // --------------------------------------------------------------- counts

  /** A sweep is between its beginning and being counted. */
  predicate IsUncounted(at: DaemonPoint) {
    at == Sweeping || at == WantsCountLock || at == Counting
  }

  /** The daemon has decided on a sweep before, or decided that none was due. */
  predicate IsPastDecision(at: DaemonPoint) {
    at == Announcing || at == WantsRelock || at == Evaluating || at == Sleeping || at.Relocking?
  }

  ghost predicate CountsAreSound(s: Daemon) {
    && s.sweepsBegun == s.sweepsCompleted + (if IsUncounted(s.at) then 1 else 0)
    && (IsPastDecision(s.at) ==> s.hasSwept)
  }

  lemma DaemonKeepsCounts(s: Daemon, t: Daemon)
    requires CountsAreSound(s) && DaemonSteps(s, t)
    ensures CountsAreSound(t)
    ensures t.sweepsBegun == s.sweepsBegun + if BeginsSweep(s, t) then 1 else 0
    ensures t.sweepsCompleted == s.sweepsCompleted || (t.hasSwept && t.sweepsCompleted == s.sweepsCompleted + 1)
    ensures t.hasSwept ==> s.hasSwept || t.sweepsCompleted == s.sweepsCompleted + 1
    ensures s.hasSwept ==> t.hasSwept
  {
  }

  lemma OthersKeepCounts(s: Daemon, move: Move, t: Daemon)
    requires CountsAreSound(s) && Next(s, move, t) && move != ByDaemon
    ensures CountsAreSound(t)
    ensures t.sweepsBegun == s.sweepsBegun && t.sweepsCompleted == s.sweepsCompleted && t.hasSwept == s.hasSwept
  {
    if move != ByTimeout {
      OtherMovesDoNotDelay(s, move, t);
      OthersCountNothing(s, t);
    }
  }

  lemma OthersCountNothing(s: Daemon, t: Daemon)
    requires OtherSteps(s, t) || Notifies(s, t)
    ensures t.sweepsBegun == s.sweepsBegun && t.sweepsCompleted == s.sweepsCompleted && t.hasSwept == s.hasSwept
  {
    if BystanderSteps(s, t) {
      BystandersLeaveDaemon(s, t);
    } else if id :| RequestSteps(s, t, id) {
      RequestCountsNothing(s, t, id);
    }
  }

  lemma RequestCountsNothing(s: Daemon, t: Daemon, id: nat)
    requires RequestSteps(s, t, id)
    ensures t.sweepsBegun == s.sweepsBegun && t.sweepsCompleted == s.sweepsCompleted && t.hasSwept == s.hasSwept
  {
  }

  lemma {:induction false} CountsHold(run: seq<Daemon>, moves: seq<Move>, i: nat)
    requires IsInterleaving(run, moves) && Init(run[0]) && i < |run|
    ensures CountsAreSound(run[i]) && run[i].sweepsCompleted >= run[0].sweepsCompleted
    ensures run[i].hasSwept <==> run[i].sweepsCompleted > run[0].sweepsCompleted
  {
    if i > 0 {
      CountsHold(run, moves, i - 1);
      assert Next(run[i - 1], moves[i - 1], run[i]);
      if moves[i - 1] == ByDaemon {
        DaemonKeepsCounts(run[i - 1], run[i]);
      } else {
        OthersKeepCounts(run[i - 1], moves[i - 1], run[i]);
      }
    }
  }

  /** In every interleaving every sweep that begins is counted once, when it is finished; and the daemon never
      waits before it has swept. */
  lemma EverySweepIsCounted(run: seq<Daemon>, moves: seq<Move>, i: nat)
    requires IsInterleaving(run, moves) && Init(run[0]) && i < |run|
    ensures run[i].sweepsBegun == run[i].sweepsCompleted + if IsUncounted(run[i].at) then 1 else 0
    ensures run[i].at == WantsRelock || run[i].at == Evaluating || run[i].at == Sleeping || run[i].at.Relocking?
      ==> run[i].sweepsCompleted > run[0].sweepsCompleted
  {
    CountsHold(run, moves, i);
  }

  // ----------------------------------------------------------- the reasons

  /** What makes a sweep due without anybody asking: none was made yet, the interval, the disk. */
  ghost predicate IsDue(run: seq<Daemon>, i: nat)
    requires i < |run|
  {
    run[i].sweepsCompleted == run[0].sweepsCompleted || run[i].isIntervalOver || run[i].isDiskFull
  }

  /** In every interleaving: of the two ways out of the decision the daemon takes the one that sweeps exactly
      when it took a request, when no sweep was completed yet, when the interval is over, or when the disk is
      at the trigger. */
  lemma SweepsExactlyWhenDue(run: seq<Daemon>, moves: seq<Move>, i: nat)
    requires IsInterleaving(run, moves) && Init(run[0]) && i + 1 < |run|
    requires run[i].at.Deciding? && moves[i] == ByDaemon
    ensures BeginsSweep(run[i], run[i + 1]) <==> run[i].at.wasRequested || IsDue(run, i)
    ensures run[i + 1].at == Sweeping || run[i + 1].at == WantsRelock
  {
    CountsHold(run, moves, i);
    assert Next(run[i], moves[i], run[i + 1]);
  }

  /** Nobody has asked the daemon for a sweep that it has not yet decided on. */
  predicate IsUnasked(s: Daemon) {
    !s.isSweepRequested && s.at != Taken(true) && s.at != Deciding(true)
  }

  lemma UnaskedUntilRequest(s: Daemon, move: Move, t: Daemon)
    requires Next(s, move, t) && IsUnasked(s)
    requires !exists id :: RequestSteps(s, t, id) && s.requests[id] == Setting
    ensures IsUnasked(t)
  {
    if move == ByDaemon {
      DaemonAsksNothing(s, t);
    } else if move != ByTimeout {
      OtherMovesDoNotDelay(s, move, t);
      OthersAskNothing(s, t);
    }
  }

  lemma DaemonAsksNothing(s: Daemon, t: Daemon)
    requires DaemonSteps(s, t) && IsUnasked(s)
    ensures IsUnasked(t)
  {
  }

  lemma OnlySettingAsks(s: Daemon, t: Daemon, id: nat)
    requires RequestSteps(s, t, id) && s.requests[id] != Setting
    ensures t.isSweepRequested == s.isSweepRequested
  {
  }

  lemma StopAsksNothing(s: Daemon, t: Daemon)
    requires StopSteps(s, t)
    ensures t.isSweepRequested == s.isSweepRequested
  {
  }

  lemma OthersAskNothing(s: Daemon, t: Daemon)
    requires OtherSteps(s, t) || Notifies(s, t)
    requires !exists id :: RequestSteps(s, t, id) && s.requests[id] == Setting
    ensures t.isSweepRequested == s.isSweepRequested
  {
    if BystanderSteps(s, t) {
      BystandersLeaveDaemon(s, t);
    } else if id :| RequestSteps(s, t, id) {
      OnlySettingAsks(s, t, id);
    } else {
      StopAsksNothing(s, t);
    }
  }

  /** From state k to the next one somebody sets the request flag. */
  ghost predicate AsksAt(run: seq<Daemon>, k: nat)
    requires k + 1 < |run|
  {
    exists id :: RequestSteps(run[k], run[k + 1], id) && run[k].requests[id] == Setting
  }

  lemma {:induction false} UnaskedOver(run: seq<Daemon>, moves: seq<Move>, i: nat, j: nat)
    requires IsInterleaving(run, moves) && i <= j < |run| && IsUnasked(run[i])
    requires forall k :: i <= k < j ==> !AsksAt(run, k)
    ensures IsUnasked(run[j])
    decreases j
  {
    if i < j {
      UnaskedOver(run, moves, i, j - 1);
      assert Next(run[j - 1], moves[j - 1], run[j]) && !AsksAt(run, j - 1);
      UnaskedUntilRequest(run[j - 1], moves[j - 1], run[j]);
    }
  }

  /** In every interleaving: a sweep that nobody asked for, since the daemon was last known to be unasked,
      begins only because none was completed yet, the interval is over or the disk is at the trigger. */
  lemma NoSweepWithoutReason(run: seq<Daemon>, moves: seq<Move>, i: nat, j: nat)
    requires IsInterleaving(run, moves) && Init(run[0]) && i <= j && j + 1 < |run| && IsUnasked(run[i])
    requires forall k :: i <= k < j ==> !AsksAt(run, k)
    requires moves[j] == ByDaemon && BeginsSweep(run[j], run[j + 1])
    ensures IsDue(run, j)
  {
    UnaskedOver(run, moves, i, j);
    assert run[j].at.Deciding? by {
      assert Next(run[j], moves[j], run[j + 1]);
    }
    SweepsExactlyWhenDue(run, moves, j);
  }

  /** No request is set. */
  lemma {:induction false} FlagStaysDown(run: seq<Daemon>, moves: seq<Move>, i: nat, j: nat)
    requires IsInterleaving(run, moves) && i <= j < |run| && !run[i].isSweepRequested
    requires forall k :: i <= k < j ==> !AsksAt(run, k)
    ensures !run[j].isSweepRequested
    decreases j
  {
    if i < j {
      FlagStaysDown(run, moves, i, j - 1);
      assert Next(run[j - 1], moves[j - 1], run[j]) && !AsksAt(run, j - 1);
      if moves[j - 1] != ByDaemon && moves[j - 1] != ByTimeout {
        OtherMovesDoNotDelay(run[j - 1], moves[j - 1], run[j]);
        OthersAskNothing(run[j - 1], run[j]);
      }
    }
  }

  /** In every interleaving a round spends the requests it finds: unless somebody asks again, a sweep of a
      later round begins only because the interval is over or the disk is at the trigger. */
  lemma RoundSpendsRequests(run: seq<Daemon>, moves: seq<Move>, i: nat, m: nat, j: nat)
    requires IsInterleaving(run, moves) && Init(run[0]) && i < m <= j && j + 1 < |run|
    requires run[i].at == LoopHead && moves[i] == ByDaemon && run[m].at == LoopHead
    requires forall k :: i <= k < j ==> !AsksAt(run, k)
    requires moves[j] == ByDaemon && BeginsSweep(run[j], run[j + 1])
    ensures IsDue(run, j)
  {
    assert Next(run[i], moves[i], run[i + 1]);
    if run[i + 1].at == Exited {
      ExitedForGood(run, moves, i + 1, m);
    }
    FlagStaysDown(run, moves, i + 1, m);
    NoSweepWithoutReason(run, moves, m, j);
  }

  lemma {:induction false} ExitedForGood(run: seq<Daemon>, moves: seq<Move>, i: nat, j: nat)
    requires IsInterleaving(run, moves) && i <= j < |run| && run[i].at == Exited
    ensures run[j].at == Exited
    decreases j
  {
    if i < j {
      ExitedForGood(run, moves, i, j - 1);
      assert Next(run[j - 1], moves[j - 1], run[j]);
      if moves[j - 1] == ByOther {
        OtherMovesDoNotDelay(run[j - 1], moves[j - 1], run[j]);
      }
    }
  }

  // ---------------------------------------------------------- due is done

  /** How many moves of the daemon are left until it decides, when nothing makes it wait first. */
  function MovesToDecision(at: DaemonPoint): nat {
    match at
    case Deciding(_) => 1
    case Taken(_) => 2
    case LoopHead => 3
    case Starting => 4
    case Relocking(_) => 4
    case _ => 0
  }

  /** The daemon was just started, or its time to wait is up, or it is on the way to the decision. */
  predicate IsOnTheWay(at: DaemonPoint) {
    at == Starting || at == Relocking(true) || at == LoopHead || at.Taken? || at.Deciding?
  }

  lemma DaemonComesToDecision(s: Daemon, t: Daemon)
    requires DaemonSteps(s, t) && IsOnTheWay(s.at) && !s.isStopRequested
    requires !s.hasSwept || s.isIntervalOver || s.isDiskFull
    ensures BeginsSweep(s, t) || (IsOnTheWay(t.at) && MovesToDecision(t.at) < MovesToDecision(s.at))
  {
  }

  /** While a sweep is due every move of the daemon brings the decision nearer, and nobody puts it off. */
  lemma DueSweepIsNearer(run: seq<Daemon>, moves: seq<Move>, i: nat)
    requires IsInterleaving(run, moves) && Init(run[0]) && i + 1 < |run| && IsOnTheWay(run[i].at)
    requires IsDue(run, i) && !run[i].isStopRequested
    ensures if moves[i] == ByDaemon
      then BeginsSweep(run[i], run[i + 1])
           || (IsOnTheWay(run[i + 1].at) && MovesToDecision(run[i + 1].at) < MovesToDecision(run[i].at))
      else moves[i] != ByWakeup && run[i + 1].at == run[i].at
  {
    assert Next(run[i], moves[i], run[i + 1]);
    CountsHold(run, moves, i);
    if moves[i] == ByDaemon {
      DaemonComesToDecision(run[i], run[i + 1]);
    } else if moves[i] != ByTimeout {
      OtherMovesDoNotDelay(run[i], moves[i], run[i + 1]);
    }
  }

  lemma MovesOfTail(moves: seq<Move>, i: nat, j: nat)
    requires i <= j <= |moves|
    ensures DaemonMoves(moves[i..j]) > 0 ==> i < j
    ensures i < j ==>
      DaemonMoves(moves[i..j]) ==
        (if moves[i] == ByDaemon || moves[i] == ByWakeup then 1 else 0) + DaemonMoves(moves[i + 1..j])
  {
    if i < j {
      assert moves[i..j][1..] == moves[i + 1..j];
    }
  }

  ghost predicate StaysDue(run: seq<Daemon>, i: nat, j: nat)
    requires j <= |run|
  {
    forall m :: i <= m < j ==> IsDue(run, m) && !run[m].isStopRequested
  }

  lemma {:induction false} DueSweepComes(run: seq<Daemon>, moves: seq<Move>, i: nat, j: nat) returns (k: nat)
    requires IsInterleaving(run, moves) && Init(run[0]) && i <= j < |run| && IsOnTheWay(run[i].at)
    requires StaysDue(run, i, j) && DaemonMoves(moves[i..j]) >= MovesToDecision(run[i].at)
    ensures i <= k < j && moves[k] == ByDaemon && BeginsSweep(run[k], run[k + 1])
    decreases j - i
  {
    MovesOfTail(moves, i, j);
    assert IsDue(run, i);
    DueSweepIsNearer(run, moves, i);
    if moves[i] == ByDaemon && BeginsSweep(run[i], run[i + 1]) {
      return i;
    }
    k := DueSweepComes(run, moves, i + 1, j);
  }

  /** In every interleaving, without anybody asking: when the daemon has just been started, or its time to
      wait is up, and a sweep is due and stays so, one begins within four moves of the daemon, unless stop
      is requested first. */
  lemma DueSweepBegins(run: seq<Daemon>, moves: seq<Move>, i: nat, j: nat)
    requires IsInterleaving(run, moves) && Init(run[0]) && i <= j < |run|
    requires run[i].at == Starting || run[i].at == Relocking(true)
    requires forall m :: i <= m < j ==> IsDue(run, m) && !run[m].isStopRequested
    requires DaemonMoves(moves[i..j]) >= 4
    ensures exists k :: i <= k < j && moves[k] == ByDaemon && BeginsSweep(run[k], run[k + 1])
  {
    var k := DueSweepComes(run, moves, i, j);
  }

  // --------------------------------------------------------- what may happen

  ghost predicate MayBecome(s: Daemon, t: Daemon) {
    exists move :: Next(s, move, t)
  }

  lemma ByOtherWhenSame(s: Daemon, t: Daemon)
    requires OtherSteps(s, t) && t.at == s.at
    ensures MayBecome(s, t)
  {
    NotANotify(s, t);
    assert Next(s, ByOther, t);
  }

  lemma ConditionsMayChange(s: Daemon, isIntervalOver: bool, isDiskFull: bool)
    ensures MayBecome(s, s.(isIntervalOver := isIntervalOver, isDiskFull := isDiskFull))
  {
    var t := s.(isIntervalOver := isIntervalOver, isDiskFull := isDiskFull);
    assert ConditionsChange(s, t, isIntervalOver, isDiskFull);
    ByOtherWhenSame(s, t);
  }

  lemma AnybodyMayCall(s: Daemon, id: nat, count: nat)
    ensures id !in s.requests ==> MayBecome(s, s.(requests := s.requests[id := WantsLock]))
    ensures id !in s.waiters ==> MayBecome(s, s.(waiters := s.waiters[id := Waiter(count, false, AwaitsLock)]))
  {
    if id !in s.requests {
      var t := s.(requests := s.requests[id := WantsLock]);
      assert Calls(s, t, id);
      ByOtherWhenSame(s, t);
    }
    if id !in s.waiters {
      var t := s.(waiters := s.waiters[id := Waiter(count, false, AwaitsLock)]);
      assert Waits(s, t, id, count);
      ByOtherWhenSame(s, t);
    }
  }

  lemma WaiterMayTimeOut(s: Daemon, id: nat)
    requires id in s.waiters && s.waiters[id].at == Waiting
    ensures MayBecome(s, s.(waiters := s.waiters[id := s.waiters[id].(at := Rechecking(true))]))
  {
    var t := WaiterAfter(s, id, Rechecking(true));
    assert t == s.(waiters := s.waiters[id := s.waiters[id].(at := Rechecking(true))]);
    assert WaiterSteps(s, t, id);
    ByOtherWhenSame(s, t);
  }

  lemma StopMayBeCalled(s: Daemon)
    requires s.stop == NotCalled
    ensures MayBecome(s, s.(stop := StopWantsLock))
  {
    var t := StopAfter(s, StopWantsLock);
    assert t == s.(stop := StopWantsLock);
    assert StopSteps(s, t);
    ByOtherWhenSame(s, t);
  }

  /** Nothing that is left to others is ever ruled out: what the daemon will find about interval and disk may
      change in any way, anybody may ask for a sweep or wait for any number of them, stop may be called, and
      the time of whoever sleeps may be up. */
  lemma NothingIsRuledOut(s: Daemon, isIntervalOver: bool, isDiskFull: bool, id: nat, count: nat)
    ensures MayBecome(s, s.(isIntervalOver := isIntervalOver, isDiskFull := isDiskFull))
    ensures id !in s.requests ==> MayBecome(s, s.(requests := s.requests[id := WantsLock]))
    ensures id !in s.waiters ==> MayBecome(s, s.(waiters := s.waiters[id := Waiter(count, false, AwaitsLock)]))
    ensures s.stop == NotCalled ==> MayBecome(s, s.(stop := StopWantsLock))
    ensures s.at == Sleeping ==> MayBecome(s, s.(at := Relocking(true)))
    ensures id in s.waiters && s.waiters[id].at == Waiting ==>
      MayBecome(s, s.(waiters := s.waiters[id := s.waiters[id].(at := Rechecking(true))]))
  {
    ConditionsMayChange(s, isIntervalOver, isDiskFull);
    AnybodyMayCall(s, id, count);
    if id in s.waiters && s.waiters[id].at == Waiting {
      WaiterMayTimeOut(s, id);
    }
    if s.stop == NotCalled {
      StopMayBeCalled(s);
    }
    if s.at == Sleeping {
      assert Next(s, ByTimeout, s.(at := Relocking(true)));
    }
  }
}
