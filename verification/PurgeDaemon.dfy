/** The thread that decides when to sweep, any number of callers of requestSweep and of waitForSweeps, and
    one caller of stop, around one mutex and two condition variables. A step is what one thread does
    between two points where another may run. */
module PurgeDaemon {
  import opened Outcomes

  datatype Thread = DaemonThread | StopThread | RequestThread(id: nat) | WaiterThread(id: nat)

  /** run: take the request flag, decide, perhaps sweep and count, wait, and again. */
  datatype DaemonPoint =
    | Starting
    | LoopHead
    | Taken(wasRequested: bool)
    | Deciding(wasRequested: bool)
    | Sweeping
    | WantsCountLock
    | Counting
    | Announcing
    | WantsRelock
    | Evaluating
    | Sleeping
    | Relocking(timedOut: bool)
    | Exited

  /** requestSweep: set the flag under the mutex, unlock, notify. */
  datatype RequestPoint = WantsLock | Setting | Unlocking | OwesNotify | Returned

  /** stop: set the flag under the mutex, unlock, notify, join the thread. */
  datatype StopPoint = NotCalled | StopWantsLock | StopSetting | StopUnlocking | StopOwesNotify | Joining | StopReturned

  /** waitForSweeps: wait under the mutex until enough sweeps are completed or the time is up, and say
      whether enough are. */
  datatype WaiterPoint =
    | AwaitsLock
    | Checking
    | Waiting
    | Rechecking(timedOut: bool)
    | Answering(reached: bool)
    | Answered(reached: bool)

  datatype Waiter = Waiter(count: nat, timedOut: bool, at: WaiterPoint)

  /** `isIntervalOver`: the last sweep lies a retention interval back; `isDiskFull`: the disk is at the trigger;
      both as the daemon would find them now. `isUnserved`: a request was made and no sweep has begun since.
      `sweepsBegun` and `begunAfterStop` count the sweeps that began, ever and after stop was requested. These
      three only observe. */
  datatype Daemon = Daemon(
    at: DaemonPoint,
    hasSwept: bool,
    sweepsCompleted: nat,
    isIntervalOver: bool,
    isDiskFull: bool,
    isSweepRequested: bool,
    isStopRequested: bool,
    holder: Option<Thread>,
    requests: map<nat, RequestPoint>,
    stop: StopPoint,
    waiters: map<nat, Waiter>,
    isUnserved: bool,
    sweepsBegun: nat,
    begunAfterStop: nat)

  predicate WakeCondition(s: Daemon) {
    s.isStopRequested || s.isSweepRequested
  }

  /** notify_all on the daemon's condition variable. */
  function Notified(at: DaemonPoint): DaemonPoint {
    if at == Sleeping then Relocking(false) else at
  }

  /** notify_all on the other condition variable, when a sweep is finished. */
  function Announced(waiters: map<nat, Waiter>): map<nat, Waiter> {
    map id | id in waiters ::
      if waiters[id].at == Waiting then waiters[id].(at := Rechecking(false)) else waiters[id]
  }

  // ---------------------------------------------------------------- steps

  /** What a step does to the mutex: the thread locks it when it goes where it holds it, which it can only
      when nobody does, and unlocks it when it leaves. */
  predicate CanGo(s: Daemon, isHolding: bool, willHold: bool) {
    willHold && !isHolding ==> s.holder == None
  }

  function HolderAfter(s: Daemon, thread: Thread, isHolding: bool, willHold: bool): Option<Thread> {
    if willHold then Some(thread) else if isHolding then None else s.holder
  }

  predicate DaemonHolds(at: DaemonPoint) {
    at == LoopHead || at.Taken? || at == Counting || at == Evaluating
  }

  ghost predicate DaemonGoes(s: Daemon, to: DaemonPoint) {
    match s.at
    case Starting => to == LoopHead
    case LoopHead => to == if s.isStopRequested then Exited else Taken(s.isSweepRequested)
    case Taken(wasRequested) => to == Deciding(wasRequested)
    case Deciding(wasRequested) =>
      to == if wasRequested || !s.hasSwept || s.isIntervalOver || s.isDiskFull then Sweeping else WantsRelock
    case Sweeping => to == WantsCountLock
    case WantsCountLock => to == Counting
    case Counting => to == Announcing
    case Announcing => to == WantsRelock
    case WantsRelock => to == Evaluating
    case Evaluating => to == if WakeCondition(s) then LoopHead else Sleeping
    case Sleeping => false
    case Relocking(timedOut) => to == if timedOut then LoopHead else Evaluating
    case Exited => false
  }

  function DaemonAfter(s: Daemon, to: DaemonPoint): Daemon {
    s.(at := to,
       holder := HolderAfter(s, DaemonThread, DaemonHolds(s.at), DaemonHolds(to)),
       isSweepRequested := s.isSweepRequested && !to.Taken?,
       hasSwept := s.hasSwept || s.at == Counting,
       sweepsCompleted := s.sweepsCompleted + if s.at == Counting then 1 else 0,
       waiters := if s.at == Announcing then Announced(s.waiters) else s.waiters,
       isUnserved := s.isUnserved && to != Sweeping,
       sweepsBegun := s.sweepsBegun + if to == Sweeping then 1 else 0,
       begunAfterStop := s.begunAfterStop + if to == Sweeping && s.isStopRequested then 1 else 0)
  }

  ghost predicate DaemonSteps(s: Daemon, t: Daemon) {
    DaemonGoes(s, t.at) && CanGo(s, DaemonHolds(s.at), DaemonHolds(t.at)) && t == DaemonAfter(s, t.at)
  }

  ghost predicate BeginsSweep(s: Daemon, t: Daemon) {
    DaemonSteps(s, t) && t.at == Sweeping
  }

  /** A sleeping daemon wakes unasked: the interval is over, or for no reason. */
  ghost predicate WakesUnasked(s: Daemon, t: Daemon) {
    s.at == Sleeping && (t == s.(at := Relocking(true)) || t == s.(at := Relocking(false)))
  }

  /** Time passes, a sweep or somebody else changes what is on the disk. */
  ghost predicate ConditionsChange(s: Daemon, t: Daemon, isIntervalOver: bool, isDiskFull: bool) {
    t == s.(isIntervalOver := isIntervalOver, isDiskFull := isDiskFull)
  }

  ghost predicate Calls(s: Daemon, t: Daemon, id: nat) {
    id !in s.requests && t == s.(requests := s.requests[id := WantsLock])
  }

  predicate RequestHolds(at: RequestPoint) {
    at == Setting || at == Unlocking
  }

  predicate RequestGoes(from: RequestPoint, to: RequestPoint) {
    match from
    case WantsLock => to == Setting
    case Setting => to == Unlocking
    case Unlocking => to == OwesNotify
    case OwesNotify => to == Returned
    case Returned => false
  }

  function RequestAfter(s: Daemon, id: nat, to: RequestPoint): Daemon
    requires id in s.requests
  {
    var from := s.requests[id];
    s.(requests := s.requests[id := to],
       holder := HolderAfter(s, RequestThread(id), RequestHolds(from), RequestHolds(to)),
       isSweepRequested := s.isSweepRequested || from == Setting,
       isUnserved := s.isUnserved || from == Setting,
       at := if from == OwesNotify then Notified(s.at) else s.at)
  }

  ghost predicate RequestSteps(s: Daemon, t: Daemon, id: nat) {
    && id in s.requests && id in t.requests
    && RequestGoes(s.requests[id], t.requests[id])
    && CanGo(s, RequestHolds(s.requests[id]), RequestHolds(t.requests[id]))
    && t == RequestAfter(s, id, t.requests[id])
  }

  predicate StopHolds(at: StopPoint) {
    at == StopSetting || at == StopUnlocking
  }

  predicate StopGoes(s: Daemon, to: StopPoint) {
    match s.stop
    case NotCalled => to == StopWantsLock
    case StopWantsLock => to == StopSetting
    case StopSetting => to == StopUnlocking
    case StopUnlocking => to == StopOwesNotify
    case StopOwesNotify => to == Joining
    case Joining => s.at == Exited && to == StopReturned
    case StopReturned => false
  }

  function StopAfter(s: Daemon, to: StopPoint): Daemon {
    s.(stop := to,
       holder := HolderAfter(s, StopThread, StopHolds(s.stop), StopHolds(to)),
       isStopRequested := s.isStopRequested || s.stop == StopSetting,
       at := if s.stop == StopOwesNotify then Notified(s.at) else s.at)
  }

  ghost predicate StopSteps(s: Daemon, t: Daemon) {
    StopGoes(s, t.stop) && CanGo(s, StopHolds(s.stop), StopHolds(t.stop)) && t == StopAfter(s, t.stop)
  }

  ghost predicate Waits(s: Daemon, t: Daemon, id: nat, count: nat) {
    id !in s.waiters && t == s.(waiters := s.waiters[id := Waiter(count, false, AwaitsLock)])
  }

  predicate WaiterHolds(at: WaiterPoint) {
    at == Checking || at.Answering?
  }

  predicate IsReached(s: Daemon, id: nat)
    requires id in s.waiters
  {
    s.sweepsCompleted >= s.waiters[id].count
  }

  predicate WaiterGoes(from: WaiterPoint, isReached: bool, to: WaiterPoint) {
    match from
    case AwaitsLock => to == Checking
    case Checking => to == if isReached then Answering(true) else Waiting
    // the time is up, or for no reason
    case Waiting => to == Rechecking(true) || to == Rechecking(false)
    case Rechecking(timedOut) => to == if timedOut then Answering(isReached) else Checking
    case Answering(reached) => to == Answered(reached)
    case Answered(_) => false
  }

  function WaiterAfter(s: Daemon, id: nat, to: WaiterPoint): Daemon
    requires id in s.waiters
  {
    var w := s.waiters[id];
    s.(waiters := s.waiters[id := w.(at := to, timedOut := w.timedOut || w.at == Rechecking(true))],
       holder := HolderAfter(s, WaiterThread(id), WaiterHolds(w.at), WaiterHolds(to)))
  }

  ghost predicate WaiterSteps(s: Daemon, t: Daemon, id: nat) {
    && id in s.waiters && id in t.waiters
    && WaiterGoes(s.waiters[id].at, IsReached(s, id), t.waiters[id].at)
    && CanGo(s, WaiterHolds(s.waiters[id].at), WaiterHolds(t.waiters[id].at))
    && t == WaiterAfter(s, id, t.waiters[id].at)
  }

  /** A step that concerns the daemon in nothing but what it may find later. */
  ghost predicate BystanderSteps(s: Daemon, t: Daemon) {
    || (exists id :: Calls(s, t, id))
    || (exists id, count :: Waits(s, t, id, count)) || (exists id :: WaiterSteps(s, t, id))
    || (exists isIntervalOver, isDiskFull :: ConditionsChange(s, t, isIntervalOver, isDiskFull))
  }

  ghost predicate OtherSteps(s: Daemon, t: Daemon) {
    (exists id :: RequestSteps(s, t, id)) || StopSteps(s, t) || BystanderSteps(s, t)
  }

  /** The call of notify_all at the end of requestSweep and in stop. */
  ghost predicate Notifies(s: Daemon, t: Daemon) {
    || (exists id :: id in s.requests && s.requests[id] == OwesNotify && RequestSteps(s, t, id))
    || (s.stop == StopOwesNotify && StopSteps(s, t))
  }

  /** Who moves: the daemon, a sleeping daemon that wakes unasked, a notify_all that finds the daemon
      asleep, or somebody else. */
  datatype Move = ByDaemon | ByTimeout | ByWakeup | ByOther

  ghost predicate Next(s: Daemon, move: Move, t: Daemon) {
    match move
    case ByDaemon => DaemonSteps(s, t)
    case ByTimeout => WakesUnasked(s, t)
    case ByWakeup => s.at == Sleeping && Notifies(s, t)
    case ByOther => OtherSteps(s, t) && !(s.at == Sleeping && Notifies(s, t))
  }

  /** The daemon was just started; a request may have been left from before. */
  ghost predicate Init(s: Daemon) {
    && s.at == Starting && !s.hasSwept && !s.isStopRequested && s.holder == None
    && s.requests == map[] && s.stop == NotCalled && s.waiters == map[]
    && s.isUnserved == s.isSweepRequested && s.sweepsBegun == s.sweepsCompleted && s.begunAfterStop == 0
  }

  // ------------------------------------------------------------ invariant

  ghost predicate WaitersHoldSoundly(s: Daemon) {
    && (forall id :: id in s.waiters ==> (WaiterHolds(s.waiters[id].at) <==> s.holder == Some(WaiterThread(id))))
    && (forall id :: s.holder == Some(WaiterThread(id)) ==> id in s.waiters)
  }

  ghost predicate MutexIsSound(s: Daemon) {
    && WaitersHoldSoundly(s)
    && (DaemonHolds(s.at) <==> s.holder == Some(DaemonThread))
    && (StopHolds(s.stop) <==> s.holder == Some(StopThread))
    && (forall id :: id in s.requests ==> (RequestHolds(s.requests[id]) <==> s.holder == Some(RequestThread(id))))
    && (forall id :: s.holder == Some(RequestThread(id)) ==> id in s.requests)
  }

  ghost predicate StopIsSound(s: Daemon) {
    && (s.isStopRequested <==>
          s.stop == StopUnlocking || s.stop == StopOwesNotify || s.stop == Joining || s.stop == StopReturned)
    && (s.at == Exited ==> s.isStopRequested)
    && (s.stop == StopReturned ==> s.at == Exited)
  }

  /** A request that no sweep has answered is still on the flag, or in the daemon's hands. */
  ghost predicate RequestIsKept(s: Daemon) {
    s.isUnserved ==> s.isSweepRequested || s.at == Taken(true) || s.at == Deciding(true)
  }

  ghost predicate NotifyIsOwed(s: Daemon) {
    || (exists id :: id in s.requests && (s.requests[id] == Unlocking || s.requests[id] == OwesNotify))
    || s.stop == StopUnlocking || s.stop == StopOwesNotify
  }

  /** The daemon does not sleep on a request or a stop unless somebody is about to wake it. */
  ghost predicate NoLostWakeup(s: Daemon) {
    s.at == Sleeping && WakeCondition(s) ==> NotifyIsOwed(s)
  }

  /** A stop leaves room for one sweep at most: the one being decided on. */
  ghost predicate StopLeavesOne(s: Daemon) {
    s.begunAfterStop + (if s.isStopRequested && (s.at.Taken? || s.at.Deciding?) then 1 else 0) <= 1
    && (!s.isStopRequested ==> s.begunAfterStop == 0)
  }

  ghost predicate Inv(s: Daemon) {
    MutexIsSound(s) && StopIsSound(s) && RequestIsKept(s) && NoLostWakeup(s) && StopLeavesOne(s)
  }

  lemma DaemonKeepsItsLock(s: Daemon, t: Daemon)
    requires DaemonHolds(s.at) <==> s.holder == Some(DaemonThread)
    requires DaemonSteps(s, t)
    ensures t.holder == s.holder || (s.holder == None && t.holder == Some(DaemonThread))
                                 || (s.holder == Some(DaemonThread) && t.holder == None)
    ensures DaemonHolds(t.at) <==> t.holder == Some(DaemonThread)
  {
  }

  lemma DaemonLeavesOthersAlone(s: Daemon, t: Daemon)
    requires DaemonSteps(s, t)
    ensures t.requests == s.requests && t.stop == s.stop && t.isStopRequested == s.isStopRequested
    ensures t.waiters == s.waiters || t.waiters == Announced(s.waiters)
    ensures s.at != Exited && (t.at == Exited ==> s.isStopRequested)
  {
  }

  lemma DaemonKeepsMutex(s: Daemon, t: Daemon)
    requires MutexIsSound(s) && StopIsSound(s) && DaemonSteps(s, t)
    ensures MutexIsSound(t) && StopIsSound(t)
  {
    DaemonKeepsItsLock(s, t);
    DaemonLeavesOthersAlone(s, t);
  }

  lemma DaemonKeepsPromises(s: Daemon, t: Daemon)
    requires Inv(s) && DaemonSteps(s, t)
    ensures RequestIsKept(t) && NoLostWakeup(t) && StopLeavesOne(t)
  {
  }

  lemma DaemonKeepsInv(s: Daemon, t: Daemon)
    requires Inv(s) && DaemonSteps(s, t)
    ensures Inv(t)
  {
    DaemonKeepsMutex(s, t);
    DaemonKeepsPromises(s, t);
  }

  lemma CallKeepsInv(s: Daemon, t: Daemon, id: nat)
    requires Inv(s) && Calls(s, t, id)
    ensures Inv(t)
  {
    if s.at == Sleeping && WakeCondition(s) && s.stop != StopUnlocking && s.stop != StopOwesNotify {
      var other :| other in s.requests && (s.requests[other] == Unlocking || s.requests[other] == OwesNotify);
      assert t.requests[other] == s.requests[other];
    }
  }

  lemma RequestKeepsInv(s: Daemon, t: Daemon, id: nat)
    requires Inv(s) && RequestSteps(s, t, id)
    ensures Inv(t)
  {
    if s.requests[id] == Setting {
      assert t.requests[id] == Unlocking;
    } else if s.requests[id] == Unlocking {
      assert t.requests[id] == OwesNotify;
    } else if
      && s.requests[id] == WantsLock && s.at == Sleeping && WakeCondition(s)
      && s.stop != StopUnlocking && s.stop != StopOwesNotify
    {
      var other :| other in s.requests && (s.requests[other] == Unlocking || s.requests[other] == OwesNotify);
      assert t.requests[other] == s.requests[other];
    }
  }

  lemma StopKeepsInv(s: Daemon, t: Daemon)
    requires Inv(s) && StopSteps(s, t)
    ensures Inv(t)
  {
  }

  lemma WaitKeepsInv(s: Daemon, t: Daemon, id: nat, count: nat)
    requires Inv(s) && Waits(s, t, id, count)
    ensures Inv(t)
  {
  }

  lemma WaiterMovesOnlyItself(s: Daemon, t: Daemon, id: nat)
    requires WaiterSteps(s, t, id)
    ensures t == s.(waiters := t.waiters, holder := t.holder)
    ensures id in t.waiters && t.waiters == s.waiters[id := t.waiters[id]]
    ensures t.waiters[id].count == s.waiters[id].count
  {
  }

  lemma WaiterKeepsItsLock(s: Daemon, t: Daemon, id: nat)
    requires WaiterSteps(s, t, id) && (WaiterHolds(s.waiters[id].at) <==> s.holder == Some(WaiterThread(id)))
    ensures t.holder == s.holder || (s.holder == None && t.holder == Some(WaiterThread(id)))
                                 || (s.holder == Some(WaiterThread(id)) && t.holder == None)
    ensures WaiterHolds(t.waiters[id].at) <==> t.holder == Some(WaiterThread(id))
  {
  }

  lemma WaiterKeepsInv(s: Daemon, t: Daemon, id: nat)
    requires Inv(s) && WaiterSteps(s, t, id)
    ensures Inv(t)
  {
    WaiterMovesOnlyItself(s, t, id);
    WaiterKeepsItsLock(s, t, id);
  }

  lemma WakingKeepsInv(s: Daemon, t: Daemon)
    requires Inv(s) && WakesUnasked(s, t)
    ensures Inv(t)
  {
  }

  lemma BystandersKeepInv(s: Daemon, t: Daemon)
    requires Inv(s) && BystanderSteps(s, t)
    ensures Inv(t)
  {
    if id :| Calls(s, t, id) {
      CallKeepsInv(s, t, id);
    } else if id, count :| Waits(s, t, id, count) {
      WaitKeepsInv(s, t, id, count);
    } else if id :| WaiterSteps(s, t, id) {
      WaiterKeepsInv(s, t, id);
    } else {
      var isIntervalOver, isDiskFull :| ConditionsChange(s, t, isIntervalOver, isDiskFull);
      ConditionsKeepInv(s, t, isIntervalOver, isDiskFull);
    }
  }

  lemma ConditionsKeepInv(s: Daemon, t: Daemon, isIntervalOver: bool, isDiskFull: bool)
    requires Inv(s) && ConditionsChange(s, t, isIntervalOver, isDiskFull)
    ensures Inv(t)
  {
  }

  lemma OthersKeepInv(s: Daemon, t: Daemon)
    requires Inv(s) && OtherSteps(s, t)
    ensures Inv(t)
  {
    if id :| RequestSteps(s, t, id) {
      RequestKeepsInv(s, t, id);
    } else if StopSteps(s, t) {
      StopKeepsInv(s, t);
    } else {
      BystandersKeepInv(s, t);
    }
  }

  lemma NextKeepsInv(s: Daemon, move: Move, t: Daemon)
    requires Inv(s) && Next(s, move, t)
    ensures Inv(t)
  {
    if move == ByDaemon {
      DaemonKeepsInv(s, t);
    } else if move == ByTimeout {
      WakingKeepsInv(s, t);
    } else {
      OthersKeepInv(s, t);
    }
  }

  /** A run: states, and who moved from each to the next. */
  ghost predicate IsInterleaving(run: seq<Daemon>, moves: seq<Move>) {
    |run| == |moves| + 1 && forall i :: 0 <= i < |moves| ==> Next(run[i], moves[i], run[i + 1])
  }

  lemma {:induction false} InvHolds(run: seq<Daemon>, moves: seq<Move>, i: nat)
    requires IsInterleaving(run, moves) && Init(run[0]) && i < |run|
    ensures Inv(run[i])
  {
    if i > 0 {
      InvHolds(run, moves, i - 1);
      NextKeepsInv(run[i - 1], moves[i - 1], run[i]);
    }
  }

  // ------------------------------------------------- no request is lost

  /** In every interleaving a daemon that sleeps though a request or a stop waits is about to be notified. */
  lemma NoWakeupIsLost(run: seq<Daemon>, moves: seq<Move>, i: nat)
    requires IsInterleaving(run, moves) && Init(run[0]) && i < |run|
    ensures run[i].at == Sleeping && (WakeCondition(run[i]) || run[i].isUnserved) ==> NotifyIsOwed(run[i])
  {
    InvHolds(run, moves, i);
  }

  /** How many moves of the daemon, wakeups by notify_all included, are left at most until it begins a
      sweep, with a request waiting. */
  function MovesToSweep(at: DaemonPoint): nat {
    match at
    case Deciding(wasRequested) => if wasRequested then 1 else 6
    case Taken(wasRequested) => if wasRequested then 2 else 7
    case LoopHead => 3
    case Evaluating => 4
    case Starting => 4
    case Relocking(timedOut) => if timedOut then 4 else 5
    case WantsRelock => 5
    case Sleeping => 6
    case Announcing => 6
    case Counting => 7
    case WantsCountLock => 8
    case Sweeping => 9
    case Exited => 0
  }

  lemma DaemonComesCloser(s: Daemon, t: Daemon)
    requires Inv(s) && s.isUnserved && !s.isStopRequested && DaemonSteps(s, t)
    ensures BeginsSweep(s, t) || (t.isUnserved && MovesToSweep(t.at) < MovesToSweep(s.at))
  {
  }

  lemma RequestersDoNotDelay(s: Daemon, t: Daemon, id: nat)
    requires RequestSteps(s, t, id)
    ensures s.isUnserved ==> t.isUnserved
    ensures t.at == if s.requests[id] == OwesNotify then Notified(s.at) else s.at
    ensures t.isStopRequested == s.isStopRequested
  {
  }

  lemma StopDoesNotDelay(s: Daemon, t: Daemon)
    requires StopSteps(s, t)
    ensures t.isUnserved == s.isUnserved && (s.isStopRequested ==> t.isStopRequested)
    ensures t.at == if s.stop == StopOwesNotify then Notified(s.at) else s.at
  {
  }

  /** Nothing that the daemon goes by, or that counts its sweeps, has changed. */
  ghost predicate IsSameDaemon(s: Daemon, t: Daemon) {
    && t.at == s.at && t.isUnserved == s.isUnserved && t.isStopRequested == s.isStopRequested
    && t.isSweepRequested == s.isSweepRequested && t.hasSwept == s.hasSwept
    && t.sweepsCompleted == s.sweepsCompleted && t.sweepsBegun == s.sweepsBegun
  }

  lemma WaiterLeavesDaemon(s: Daemon, t: Daemon, id: nat)
    requires WaiterSteps(s, t, id)
    ensures IsSameDaemon(s, t)
  {
    WaiterMovesOnlyItself(s, t, id);
  }

  lemma BystandersLeaveDaemon(s: Daemon, t: Daemon)
    requires BystanderSteps(s, t)
    ensures IsSameDaemon(s, t)
  {
    if id :| Calls(s, t, id) {
    } else if id, count :| Waits(s, t, id, count) {
    } else if id :| WaiterSteps(s, t, id) {
      WaiterLeavesDaemon(s, t, id);
    } else {
      var isIntervalOver, isDiskFull :| ConditionsChange(s, t, isIntervalOver, isDiskFull);
    }
  }

  lemma OthersDoNotDelay(s: Daemon, t: Daemon)
    requires OtherSteps(s, t)
    ensures s.isUnserved ==> t.isUnserved
    ensures s.isStopRequested ==> t.isStopRequested
    ensures t.at == s.at || t.at == Notified(s.at)
  {
    if id :| RequestSteps(s, t, id) {
      RequestersDoNotDelay(s, t, id);
    } else if StopSteps(s, t) {
      StopDoesNotDelay(s, t);
    } else {
      BystandersLeaveDaemon(s, t);
    }
  }

  lemma NotifyWakes(s: Daemon, t: Daemon)
    requires s.at == Sleeping && Notifies(s, t)
    ensures t.at == Relocking(false) && OtherSteps(s, t)
  {
    if id :| id in s.requests && s.requests[id] == OwesNotify && RequestSteps(s, t, id) {
      RequestersDoNotDelay(s, t, id);
    } else {
      StopDoesNotDelay(s, t);
    }
  }

  lemma OtherMovesDoNotDelay(s: Daemon, move: Move, t: Daemon)
    requires Next(s, move, t) && (move == ByWakeup || move == ByOther)
    ensures s.isUnserved ==> t.isUnserved
    ensures s.isStopRequested ==> t.isStopRequested
    ensures t.at == s.at || (s.at == Sleeping && t.at == Relocking(false))
    ensures move == ByWakeup ==> s.at == Sleeping && t.at == Relocking(false)
  {
    if move == ByWakeup {
      NotifyWakes(s, t);
    }
    OthersDoNotDelay(s, t);
  }

  /** The moves that bring a waiting request nearer to its sweep: a daemon that wakes unasked counts for
      nothing. */
  function DaemonMoves(moves: seq<Move>): nat {
    if moves == [] then 0
    else (if moves[0] == ByDaemon || moves[0] == ByWakeup then 1 else 0) + DaemonMoves(moves[1..])
  }

  lemma TailIsInterleaving(run: seq<Daemon>, moves: seq<Move>)
    requires IsInterleaving(run, moves) && moves != []
    ensures IsInterleaving(run[1..], moves[1..])
  {
    forall i | 0 <= i < |moves[1..]| ensures Next(run[1..][i], moves[1..][i], run[1..][i + 1]) {
      assert Next(run[i + 1], moves[i + 1], run[i + 2]);
    }
  }

  lemma {:induction false} SweepBegins(run: seq<Daemon>, moves: seq<Move>) returns (k: nat)
    requires IsInterleaving(run, moves) && Inv(run[0]) && run[0].isUnserved
    requires forall i :: 0 <= i < |run| ==> !run[i].isStopRequested
    requires DaemonMoves(moves) >= MovesToSweep(run[0].at)
    ensures k < |moves| && moves[k] == ByDaemon && BeginsSweep(run[k], run[k + 1])
    decreases |run|
  {
    assert moves != [] by {
      assert run[0].at != Exited;
    }
    assert Next(run[0], moves[0], run[1]);
    NextKeepsInv(run[0], moves[0], run[1]);
    if moves[0] == ByDaemon {
      DaemonComesCloser(run[0], run[1]);
      if BeginsSweep(run[0], run[1]) {
        return 0;
      }
    } else if moves[0] != ByTimeout {
      OtherMovesDoNotDelay(run[0], moves[0], run[1]);
    }
    TailIsInterleaving(run, moves);
    var j := SweepBegins(run[1..], moves[1..]);
    k := j + 1;
  }

  /** No request is lost. In every interleaving, from the moment a request is made, a sweep begins
      before the daemon has made nine more moves, unless stop is requested first. Being woken by a
      notify_all is one of them; waking unasked is none. */
  lemma EveryRequestIsServed(run: seq<Daemon>, moves: seq<Move>, i: nat, j: nat)
    requires IsInterleaving(run, moves) && Init(run[0]) && i <= j < |run|
    requires run[i].isUnserved && DaemonMoves(moves[i..j]) >= 9
    requires forall k :: i <= k <= j ==> !run[k].isStopRequested
    ensures exists k :: i <= k < j && moves[k] == ByDaemon && BeginsSweep(run[k], run[k + 1])
  {
    InvHolds(run, moves, i);
    var part, steps := run[i..j + 1], moves[i..j];
    forall k | 0 <= k < |steps| ensures Next(part[k], steps[k], part[k + 1]) {
      assert Next(run[i + k], moves[i + k], run[i + k + 1]);
    }
    var k := SweepBegins(part, steps);
    assert moves[i + k] == ByDaemon && BeginsSweep(run[i + k], run[i + k + 1]);
  }

  lemma SettingMarks(s: Daemon, t: Daemon, id: nat)
    requires RequestSteps(s, t, id) && s.requests[id] == Setting
    ensures t.isUnserved
  {
  }

  lemma OnlySweepsServe(s: Daemon, t: Daemon)
    requires DaemonSteps(s, t) && s.isUnserved && !t.isUnserved
    ensures BeginsSweep(s, t)
  {
  }

  /** The request itself: it sets the mark that only the beginning of a sweep clears. */
  lemma RequestIsMarked(s: Daemon, t: Daemon, move: Move)
    requires Next(s, move, t)
    ensures (exists id :: RequestSteps(s, t, id) && s.requests[id] == Setting) ==> t.isUnserved
    ensures s.isUnserved && !t.isUnserved ==> move == ByDaemon && BeginsSweep(s, t)
  {
    if id :| RequestSteps(s, t, id) && s.requests[id] == Setting {
      SettingMarks(s, t, id);
    }
    if s.isUnserved && !t.isUnserved {
      if move == ByDaemon {
        OnlySweepsServe(s, t);
      } else if move != ByTimeout {
        OtherMovesDoNotDelay(s, move, t);
      }
    }
  }

  // ------------------------------------------------------------- stopping

  /** How many moves of the daemon are left at most until it ends, once stop is requested. */
  function MovesToExit(at: DaemonPoint): nat {
    match at
    case Exited => 0
    case LoopHead => 1
    case Evaluating => 2
    case Starting => 2
    case Relocking(timedOut) => if timedOut then 2 else 3
    case WantsRelock => 3
    case Sleeping => 4
    case Announcing => 4
    case Counting => 5
    case WantsCountLock => 6
    case Sweeping => 7
    case Deciding(_) => 8
    case Taken(_) => 9
  }

  lemma {:induction false} DaemonEnds(run: seq<Daemon>, moves: seq<Move>)
    requires IsInterleaving(run, moves) && Inv(run[0]) && run[0].isStopRequested
    requires DaemonMoves(moves) >= MovesToExit(run[0].at)
    ensures run[|run| - 1].at == Exited
    decreases |run|
  {
    if moves != [] {
      assert Next(run[0], moves[0], run[1]);
      NextKeepsInv(run[0], moves[0], run[1]);
      StopIsNearer(run[0], moves[0], run[1]);
      TailIsInterleaving(run, moves);
      DaemonEnds(run[1..], moves[1..]);
    }
  }

  lemma StopIsNearer(s: Daemon, move: Move, t: Daemon)
    requires Inv(s) && s.isStopRequested && Next(s, move, t)
    ensures t.isStopRequested
    ensures MovesToExit(t.at) <= MovesToExit(s.at)
    ensures move == ByDaemon || move == ByWakeup ==> MovesToExit(t.at) < MovesToExit(s.at)
  {
    if move == ByDaemon {
      DaemonEndsSooner(s, t);
    } else if move != ByTimeout {
      OtherMovesDoNotDelay(s, move, t);
    }
  }

  lemma DaemonEndsSooner(s: Daemon, t: Daemon)
    requires s.isStopRequested && DaemonSteps(s, t)
    ensures t.isStopRequested && MovesToExit(t.at) < MovesToExit(s.at)
  {
  }

  /** After stop is requested at most one more sweep begins, the daemon ends within nine more of its
      moves, and stop does not return before it has ended. */
  lemma StopIsOrderly(run: seq<Daemon>, moves: seq<Move>, i: nat, j: nat)
    requires IsInterleaving(run, moves) && Init(run[0]) && i <= j < |run|
    ensures run[i].begunAfterStop <= 1
    ensures run[i].stop == StopReturned ==> run[i].at == Exited
    ensures run[i].isStopRequested && DaemonMoves(moves[i..j]) >= 9 ==> run[j].at == Exited
  {
    InvHolds(run, moves, i);
    if run[i].isStopRequested && DaemonMoves(moves[i..j]) >= 9 {
      var part, steps := run[i..j + 1], moves[i..j];
      forall k | 0 <= k < |steps| ensures Next(part[k], steps[k], part[k + 1]) {
        assert Next(run[i + k], moves[i + k], run[i + k + 1]);
      }
      DaemonEnds(part, steps);
    }
  }

  /** The thread that holds the mutex, not the daemon, takes its next step; it has one more at most before
      it unlocks. */
  ghost predicate HolderSteps(s: Daemon, t: Daemon) {
    match s.holder
    case Some(StopThread) => StopSteps(s, t)
    case Some(RequestThread(id)) => RequestSteps(s, t, id)
    case Some(WaiterThread(id)) => WaiterSteps(s, t, id)
    case _ => false
  }

  /** With work to do the daemon is never stuck, and no chance wakeup is needed: it can move, or another
      thread can unlock the mutex, or the notify_all that wakes it can be called. */
  lemma SomebodyCanMove(run: seq<Daemon>, moves: seq<Move>, i: nat)
    requires IsInterleaving(run, moves) && Init(run[0]) && i < |run| && run[i].at != Exited
    requires run[i].at == Sleeping ==> WakeCondition(run[i]) || run[i].isUnserved
    ensures (exists t :: Next(run[i], ByDaemon, t)) || (exists t :: Next(run[i], ByWakeup, t))
      || (exists t :: HolderSteps(run[i], t) && Next(run[i], ByOther, t))
  {
    InvHolds(run, moves, i);
    var s := run[i];
    if s.holder.Some? && s.holder.value != DaemonThread {
      HolderCanMove(s);
    } else if s.at == Sleeping {
      NoWakeupIsLost(run, moves, i);
      NotifierCanMove(s);
    } else {
      DaemonCanMove(s);
    }
  }

  lemma HolderCanMove(s: Daemon)
    requires Inv(s) && s.holder.Some? && s.holder.value != DaemonThread
    ensures exists t :: HolderSteps(s, t) && Next(s, ByOther, t)
  {
    var t;
    match s.holder.value {
      case StopThread => t := HoldingStopMoves(s);
      case RequestThread(id) => t := HoldingRequestMoves(s, id);
      case WaiterThread(id) => t := HoldingWaiterMoves(s, id);
    }
    NotANotify(s, t);
    assert HolderSteps(s, t) && Next(s, ByOther, t);
  }

  lemma HoldingStopMoves(s: Daemon) returns (t: Daemon)
    requires Inv(s) && s.holder == Some(StopThread)
    ensures StopSteps(s, t) && t.at == s.at
  {
    t := StopAfter(s, if s.stop == StopSetting then StopUnlocking else StopOwesNotify);
  }

  lemma HoldingRequestMoves(s: Daemon, id: nat) returns (t: Daemon)
    requires Inv(s) && s.holder == Some(RequestThread(id))
    ensures RequestSteps(s, t, id) && t.at == s.at
  {
    t := RequestAfter(s, id, if s.requests[id] == Setting then Unlocking else OwesNotify);
  }

  lemma HoldingWaiterMoves(s: Daemon, id: nat) returns (t: Daemon)
    requires Inv(s) && s.holder == Some(WaiterThread(id))
    ensures WaiterSteps(s, t, id) && t.at == s.at
  {
    var from := s.waiters[id].at;
    t := WaiterAfter(s, id, if from.Answering? then Answered(from.reached)
                            else if IsReached(s, id) then Answering(true) else Waiting);
  }

  lemma NotANotify(s: Daemon, t: Daemon)
    requires s.at == Sleeping ==> t.at == Sleeping
    ensures !(s.at == Sleeping && Notifies(s, t))
  {
    if s.at == Sleeping && Notifies(s, t) {
      NotifyWakes(s, t);
    }
  }

  lemma NotifierCanMove(s: Daemon)
    requires Inv(s) && s.at == Sleeping && s.holder == None && NotifyIsOwed(s)
    ensures exists t :: Next(s, ByWakeup, t)
  {
    if s.stop == StopOwesNotify {
      var t := StopAfter(s, Joining);
      assert StopSteps(s, t) && Next(s, ByWakeup, t);
    } else {
      var id :| id in s.requests && (s.requests[id] == Unlocking || s.requests[id] == OwesNotify);
      var t := RequestAfter(s, id, Returned);
      assert RequestSteps(s, t, id) && Next(s, ByWakeup, t);
    }
  }

  lemma DaemonHasWay(s: Daemon) returns (to: DaemonPoint)
    requires s.at != Exited && s.at != Sleeping
    ensures DaemonGoes(s, to)
  {
    to :=
      match s.at
      case Starting => LoopHead
      case LoopHead => if s.isStopRequested then Exited else Taken(s.isSweepRequested)
      case Taken(wasRequested) => Deciding(wasRequested)
      case Deciding(wasRequested) =>
        if wasRequested || !s.hasSwept || s.isIntervalOver || s.isDiskFull then Sweeping else WantsRelock
      case Sweeping => WantsCountLock
      case WantsCountLock => Counting
      case Counting => Announcing
      case Announcing => WantsRelock
      case WantsRelock => Evaluating
      case Evaluating => if WakeCondition(s) then LoopHead else Sleeping
      case Sleeping => Sleeping
      case Relocking(timedOut) => if timedOut then LoopHead else Evaluating
      case Exited => Exited;
  }

  lemma DaemonCanMove(s: Daemon)
    requires MutexIsSound(s) && s.at != Exited && s.at != Sleeping
    requires s.holder == None || s.holder == Some(DaemonThread)
    ensures exists t :: Next(s, ByDaemon, t)
  {
    var to := DaemonHasWay(s);
    assert DaemonSteps(s, DaemonAfter(s, to));
    assert Next(s, ByDaemon, DaemonAfter(s, to));
  }
}
