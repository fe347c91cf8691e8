/** Sweeps as runs of the protocol, and what a sweep that was cut off leaves for the next one to do. */
module PurgeCrash {
  import opened Outcomes
  import opened Sequences
  import opened Retention
  import opened PurgeSweep
  import opened PurgeProtocol

  // ------------------------------------------------------ sweeps are runs

  /** The states the purge of one clip goes through, after the one it starts in. */
  ghost function PurgeSteps(w: World, faults: Faults, candidate: PurgeCandidate, reason: PurgeReason,
                            context: RetentionContext): seq<System>
  {
    var id := candidate.clip.clipId;
    if !IsPurgeable(w, id) then []
    else
      var clip := w.clips[id];
      match ReleaseFile(w, faults, clip)
      case None => []
      case Some((released, outcome)) =>
        if clip.clipId in faults.update then [System(released, Released(clip)), System(released, Idle)]
        else
          var marked := MarkPurged(released, clip);
          var after := if clip.clipId in faults.logging then marked
                       else Append(marked, EntryFor(clip, candidate.sizeBytes, reason, outcome, context));
          [System(released, Released(clip)), System(marked, Marked(clip)), System(after, Idle)]
  }

  ghost function PurgeAllSteps(w: World, faults: Faults, selected: seq<PurgeCandidate>, reason: PurgeReason,
                               context: RetentionContext, report: PurgeReport): seq<System>
  {
    if selected == [] then []
    else
      var n := |selected| - 1;
      PurgeAllSteps(w, faults, selected[..n], reason, context, report)
      + PurgeSteps(PurgeAll(w, faults, selected[..n], reason, context, report).0, faults, selected[n], reason, context)
  }

  /** The steps of a sweep with the LGPD strategy alone. */
  ghost function LgpdSweepSteps(w: World, volume: Volume, faults: Faults, policy: RetentionPolicy,
                                listing: seq<MediaClip>, now: Time): seq<System>
    requires volume.capacityBytes > 0
  {
    PurgeAllSteps(w, faults, Expired(Candidates(w, faults, listing), policy, now), RetentionPeriodExpired,
                  ContextOf(w, volume, now), Begin(w, volume, faults, listing, now).report)
  }

  /** A clip whose term is over and that nothing protects. */
  predicate IsDoomed(clip: MediaClip, policy: RetentionPolicy, now: Time) {
    IsEligibleForPurge(clip) && policy.HasExpired(clip, now)
  }

  /** A purge step that takes up none but doomed clips. */
  ghost predicate LgpdStep(s: System, t: System, policy: RetentionPolicy, now: Time) {
    || (exists id :: ReleaseStep(s, t, id) && IsDoomed(s.world.clips[id], policy, now))
    || MarkStep(s, t) || RecordStep(s, t) || AbortStep(s, t)
  }

  ghost predicate LgpdStepAt(run: seq<System>, i: nat, policy: RetentionPolicy, now: Time)
    requires i + 1 < |run|
  {
    LgpdStep(run[i], run[i + 1], policy, now)
  }

  ghost predicate IsLgpdRun(run: seq<System>, policy: RetentionPolicy, now: Time) {
    run != [] && forall i :: 0 <= i < |run| - 1 ==> LgpdStepAt(run, i, policy, now)
  }

  lemma LgpdRunsJoin(a: seq<System>, b: seq<System>, policy: RetentionPolicy, now: Time)
    requires IsLgpdRun(a, policy, now) && IsLgpdRun([a[|a| - 1]] + b, policy, now)
    ensures IsLgpdRun(a + b, policy, now)
  {
    var ab, tail := a + b, [a[|a| - 1]] + b;
    forall i | 0 <= i < |ab| - 1 ensures LgpdStepAt(ab, i, policy, now) {
      if i >= |a| - 1 {
        assert LgpdStepAt(tail, i - (|a| - 1), policy, now);
        assert ab[i] == tail[i - (|a| - 1)] && ab[i + 1] == tail[i - (|a| - 1) + 1];
      } else {
        assert LgpdStepAt(a, i, policy, now);
      }
    }
  }

  /** Records may be marked purged, and change in nothing else. */
  ghost predicate OnlyPurges(w: World, v: World) {
    && v.clips.Keys == w.clips.Keys
    && forall id :: id in w.clips ==> v.clips[id] == w.clips[id] || v.clips[id] == w.clips[id].(isRetained := false)
  }

  lemma PurgeOnlyPurges(w: World, faults: Faults, c: PurgeCandidate, reason: PurgeReason, context: RetentionContext,
                        report: PurgeReport)
    requires KeyedById(w)
    ensures var v := Purge(w, faults, c, reason, context, report).0;
      && OnlyPurges(w, v) && KeyedById(v)
      && (faults == NO_FAULTS ==> !IsPurgeable(v, c.clip.clipId))
      && (forall id :: id != c.clip.clipId && id in w.clips ==> v.clips[id] == w.clips[id])
  {
  }

  lemma {:induction false} PurgeAllOnlyPurges(w: World, faults: Faults, selected: seq<PurgeCandidate>,
                                              reason: PurgeReason, context: RetentionContext, report: PurgeReport)
    requires KeyedById(w)
    ensures var v := PurgeAll(w, faults, selected, reason, context, report).0;
      && OnlyPurges(w, v) && KeyedById(v)
      && (faults == NO_FAULTS ==> forall c :: c in selected ==> !IsPurgeable(v, c.clip.clipId))
  {
    if selected != [] {
      var n := |selected| - 1;
      PurgeAllOnlyPurges(w, faults, selected[..n], reason, context, report);
      var (v, r) := PurgeAll(w, faults, selected[..n], reason, context, report);
      PurgeOnlyPurges(v, faults, selected[n], reason, context, r);
      assert selected == selected[..n] + [selected[n]];
    }
  }

  ghost predicate PurgesOneAt(run: seq<System>, i: nat, id: ClipId)
    requires i + 1 < |run|
  {
    ReleaseStep(run[i], run[i + 1], id) || MarkStep(run[i], run[i + 1]) || RecordStep(run[i], run[i + 1])
    || AbortStep(run[i], run[i + 1])
  }

  /** The purge of a clip takes steps of the protocol and ends idle, in the world Purge gives. */
  lemma PurgeTakesSteps(w: World, faults: Faults, c: PurgeCandidate, reason: PurgeReason, context: RetentionContext,
                        report: PurgeReport)
    requires KeyedById(w)
    ensures var run := [System(w, Idle)] + PurgeSteps(w, faults, c, reason, context);
      && (forall i :: 0 <= i < |run| - 1 ==> PurgesOneAt(run, i, c.clip.clipId))
      && (forall i :: 0 < i < |run| - 1 ==> run[i].phase != Idle)
      && run[|run| - 1] == System(Purge(w, faults, c, reason, context, report).0, Idle)
  {
    var id := c.clip.clipId;
    var steps := PurgeSteps(w, faults, c, reason, context);
    if steps != [] {
      var clip := w.clips[id];
      assert ReleaseFile(w, faults, clip) == ReleaseFile(w, NO_FAULTS, clip);
      assert ReleaseStep(System(w, Idle), steps[0], id);
      if |steps| == 3 && clip.clipId !in faults.logging {
        var entry := EntryFor(clip, c.sizeBytes, reason, ReleaseFile(w, faults, clip).value.1, context);
        assert entry.clipId == clip.clipId && steps[2] == System(Append(steps[1].world, entry), Idle);
        assert RecordStep(steps[1], steps[2]);
      }
    }
  }

  /** So the purge of any clip is a run of the protocol. */
  lemma PurgeFollowsProtocol(w: World, faults: Faults, c: PurgeCandidate, reason: PurgeReason,
                             context: RetentionContext, report: PurgeReport)
    requires KeyedById(w)
    ensures var run := [System(w, Idle)] + PurgeSteps(w, faults, c, reason, context);
      && IsRun(run)
      && run[|run| - 1] == System(Purge(w, faults, c, reason, context, report).0, Idle)
  {
    PurgeTakesSteps(w, faults, c, reason, context, report);
    var run := [System(w, Idle)] + PurgeSteps(w, faults, c, reason, context);
    forall i | 0 <= i < |run| - 1 ensures StepAt(run, i) {
      assert PurgesOneAt(run, i, c.clip.clipId);
    }
  }

  /** And the purge of a doomed clip is one of an LGPD purge. */
  lemma PurgeIsRun(w: World, faults: Faults, c: PurgeCandidate, reason: PurgeReason, context: RetentionContext,
                   report: PurgeReport, policy: RetentionPolicy, now: Time)
    requires KeyedById(w)
    requires IsPurgeable(w, c.clip.clipId) ==> IsDoomed(w.clips[c.clip.clipId], policy, now)
    ensures var run := [System(w, Idle)] + PurgeSteps(w, faults, c, reason, context);
      && IsLgpdRun(run, policy, now)
      && run[|run| - 1] == System(Purge(w, faults, c, reason, context, report).0, Idle)
  {
    PurgeTakesSteps(w, faults, c, reason, context, report);
    var run := [System(w, Idle)] + PurgeSteps(w, faults, c, reason, context);
    forall i | 0 <= i < |run| - 1 ensures LgpdStepAt(run, i, policy, now) {
      assert PurgesOneAt(run, i, c.clip.clipId);
    }
  }

  lemma RunExtends(run: seq<System>, steps: seq<System>)
    requires IsRun(run) && IsRun([run[|run| - 1]] + steps)
    ensures IsRun(run + steps)
    ensures (run + steps)[|run + steps| - 1] == ([run[|run| - 1]] + steps)[|steps|]
  {
    var joined, tail := run + steps, [run[|run| - 1]] + steps;
    forall i | 0 <= i < |joined| - 1 ensures StepAt(joined, i) {
      if i >= |run| - 1 {
        assert StepAt(tail, i - (|run| - 1));
        assert joined[i] == tail[i - (|run| - 1)] && joined[i + 1] == tail[i - (|run| - 1) + 1];
      } else {
        assert StepAt(run, i);
      }
    }
  }

  lemma LgpdRunExtends(first: System, a: seq<System>, b: seq<System>, middle: System, policy: RetentionPolicy,
                       now: Time)
    requires IsLgpdRun([first] + a, policy, now) && ([first] + a)[|a|] == middle && IsLgpdRun([middle] + b, policy, now)
    ensures IsLgpdRun([first] + (a + b), policy, now)
    ensures ([first] + (a + b))[|a + b|] == ([middle] + b)[|b|]
  {
    LgpdRunsJoin([first] + a, b, policy, now);
    assert ([first] + a) + b == [first] + (a + b);
  }

  lemma {:induction false} PurgeAllIsRun(w: World, faults: Faults, selected: seq<PurgeCandidate>, reason: PurgeReason,
                                         context: RetentionContext, report: PurgeReport, policy: RetentionPolicy,
                                         now: Time)
    requires KeyedById(w)
    requires forall c :: c in selected && IsPurgeable(w, c.clip.clipId) ==>
      IsDoomed(w.clips[c.clip.clipId], policy, now)
    ensures var run := [System(w, Idle)] + PurgeAllSteps(w, faults, selected, reason, context, report);
      && IsLgpdRun(run, policy, now)
      && run[|run| - 1] == System(PurgeAll(w, faults, selected, reason, context, report).0, Idle)
  {
    if selected != [] {
      var n := |selected| - 1;
      assert selected == selected[..n] + [selected[n]];
      PurgeAllIsRun(w, faults, selected[..n], reason, context, report, policy, now);
      PurgeAllOnlyPurges(w, faults, selected[..n], reason, context, report);
      var (v, r) := PurgeAll(w, faults, selected[..n], reason, context, report);
      PurgeIsRun(v, faults, selected[n], reason, context, r, policy, now);
      LgpdRunExtends(System(w, Idle), PurgeAllSteps(w, faults, selected[..n], reason, context, report),
                     PurgeSteps(v, faults, selected[n], reason, context), System(v, Idle), policy, now);
    }
  }

  lemma {:induction false} CandidatesAreListed(w: World, faults: Faults, listing: seq<MediaClip>)
    ensures |Candidates(w, faults, listing)| == |listing|
    ensures forall i :: 0 <= i < |listing| ==>
      Candidates(w, faults, listing)[i] == PurgeCandidate(listing[i], MeasuredSize(w, faults, listing[i]))
  {
    if listing != [] {
      CandidatesAreListed(w, faults, listing[..|listing| - 1]);
    }
  }

  /** The LGPD strategy selects the doomed clips, all of them and nothing else. */
  lemma ExpiredAreTheDoomed(w: World, faults: Faults, listing: seq<MediaClip>, policy: RetentionPolicy, now: Time)
    requires KeyedById(w) && IsListing(w, listing)
    ensures var selected := Expired(Candidates(w, faults, listing), policy, now);
      && (forall c :: c in selected ==>
            c.clip.clipId in w.clips && w.clips[c.clip.clipId] == c.clip && IsDoomed(c.clip, policy, now))
      && (forall id :: id in w.clips && IsDoomed(w.clips[id], policy, now) ==>
          exists c :: c in selected && c.clip.clipId == id)
  {
    var candidates := Candidates(w, faults, listing);
    CandidatesAreListed(w, faults, listing);
    FilterElements(candidates, (c: PurgeCandidate) => IsEligibleForPurge(c.clip) && policy.HasExpired(c.clip, now));
    var selected := Expired(candidates, policy, now);
    forall c | c in selected
      ensures c.clip.clipId in w.clips && w.clips[c.clip.clipId] == c.clip && IsDoomed(c.clip, policy, now)
    {
      var i :| 0 <= i < |candidates| && candidates[i] == c;
      assert listing[i] in listing;
    }
    forall id | id in w.clips && IsDoomed(w.clips[id], policy, now)
      ensures exists c :: c in selected && c.clip.clipId == id
    {
      assert w.clips[id] in listing;
      var i :| 0 <= i < |listing| && listing[i] == w.clips[id];
      assert candidates[i] in selected;
    }
  }

  lemma LgpdSweepIsRun(w: World, volume: Volume, faults: Faults, policy: RetentionPolicy, listing: seq<MediaClip>,
                       now: Time)
    requires volume.capacityBytes > 0 && KeyedById(w) && IsListing(w, listing)
    ensures IsLgpdRun([System(w, Idle)] + LgpdSweepSteps(w, volume, faults, policy, listing, now), policy, now)
  {
    ExpiredAreTheDoomed(w, faults, listing, policy, now);
    PurgeAllIsRun(w, faults, Expired(Candidates(w, faults, listing), policy, now), RetentionPeriodExpired,
                  ContextOf(w, volume, now), Begin(w, volume, faults, listing, now).report, policy, now);
  }

  // ------------------------------------------------- where sweeps are bound

  function Settled(clip: MediaClip, policy: RetentionPolicy, now: Time): MediaClip {
    if IsDoomed(clip, policy, now) then clip.(isRetained := false) else clip
  }

  ghost predicate IsDoomedPath(w: World, p: Path, policy: RetentionPolicy, now: Time) {
    && (exists id :: Names(w, id, p) && IsDoomed(w.clips[id], policy, now))
    && (forall id :: IsHeldBy(w, p, id) ==> IsDoomed(w.clips[id], policy, now))
  }

  /** The records once every doomed clip is purged. */
  ghost function SettledClips(w: World, policy: RetentionPolicy, now: Time): map<ClipId, MediaClip> {
    map id | id in w.clips :: Settled(w.clips[id], policy, now)
  }

  /** The files but for those that only doomed clips hold. */
  ghost function SettledFiles(w: World, policy: RetentionPolicy, now: Time): map<Path, nat> {
    map p | p in w.files && !IsDoomedPath(w, p, policy, now) :: w.files[p]
  }

  ghost predicate SameBound(w: World, v: World, policy: RetentionPolicy, now: Time) {
    && SettledClips(v, policy, now) == SettledClips(w, policy, now)
    && SettledFiles(v, policy, now) == SettledFiles(w, policy, now)
  }

  ghost predicate TakesUpDoomed(s: System, policy: RetentionPolicy, now: Time) {
    s.phase.Released? ==> IsDoomed(s.phase.clip, policy, now)
  }

  lemma ReleaseKeepsBound(s: System, t: System, id: ClipId, policy: RetentionPolicy, now: Time)
    requires IsSafe(s) && ReleaseStep(s, t, id) && IsDoomed(s.world.clips[id], policy, now)
    ensures SameBound(s.world, t.world, policy, now)
  {
    ReleaseIsSafe(s, t, id);
    forall p ensures IsDoomedPath(t.world, p, policy, now) <==> IsDoomedPath(s.world, p, policy, now) {
      assert forall x :: Names(t.world, x, p) <==> Names(s.world, x, p);
      assert forall x :: IsHeldBy(t.world, p, x) <==> IsHeldBy(s.world, p, x);
    }
    forall p | p in s.world.files && p !in t.world.files ensures IsDoomedPath(s.world, p, policy, now) {
      assert Names(s.world, id, p);
    }
  }

  lemma MarkKeepsBound(s: System, t: System, policy: RetentionPolicy, now: Time)
    requires IsSafe(s) && MarkStep(s, t) && TakesUpDoomed(s, policy, now)
    ensures SameBound(s.world, t.world, policy, now)
  {
    var clip := s.phase.clip;
    forall p | p in s.world.files
      ensures IsDoomedPath(t.world, p, policy, now) <==> IsDoomedPath(s.world, p, policy, now)
    {
      MarkKeepsDoom(s, t, p, policy, now);
    }
  }

  lemma MarkKeepsDoom(s: System, t: System, p: Path, policy: RetentionPolicy, now: Time)
    requires IsSafe(s) && MarkStep(s, t) && TakesUpDoomed(s, policy, now) && p in s.world.files
    ensures IsDoomedPath(t.world, p, policy, now) <==> IsDoomedPath(s.world, p, policy, now)
  {
    var id := s.phase.clip.clipId;
    assert forall x :: x != id ==> (IsHeldBy(t.world, p, x) <==> IsHeldBy(s.world, p, x));
    assert !IsHeldBy(t.world, p, id);
    if IsDoomedPath(s.world, p, policy, now) {
      var x :| Names(s.world, x, p) && IsDoomed(s.world.clips[x], policy, now);
      if x == id {
        var other :| other != id && IsHeldBy(s.world, p, other);
        assert IsHeldBy(t.world, p, other);
        assert Names(t.world, other, p) && IsDoomed(t.world.clips[other], policy, now);
      } else {
        assert Names(t.world, x, p) && IsDoomed(t.world.clips[x], policy, now);
      }
    }
    if IsDoomedPath(t.world, p, policy, now) {
      var x :| Names(t.world, x, p) && IsDoomed(t.world.clips[x], policy, now);
      assert Names(s.world, x, p) && IsDoomed(s.world.clips[x], policy, now);
      forall y | IsHeldBy(s.world, p, y) ensures IsDoomed(s.world.clips[y], policy, now) {
        if y != id {
          assert IsHeldBy(t.world, p, y);
        }
      }
    }
  }

  lemma SameWorldSameBound(w: World, v: World, policy: RetentionPolicy, now: Time)
    requires v.clips == w.clips && v.files == w.files
    ensures SameBound(w, v, policy, now)
  {
    forall p ensures IsDoomedPath(v, p, policy, now) <==> IsDoomedPath(w, p, policy, now) {
      assert forall x :: Names(v, x, p) <==> Names(w, x, p);
      assert forall x :: IsHeldBy(v, p, x) <==> IsHeldBy(w, p, x);
    }
  }

  /** No step of an LGPD purge, finished or failed, changes where the purge is bound. */
  lemma LgpdStepKeepsBound(s: System, t: System, policy: RetentionPolicy, now: Time)
    requires IsSafe(s) && LgpdStep(s, t, policy, now) && TakesUpDoomed(s, policy, now)
    ensures IsSafe(t) && TakesUpDoomed(t, policy, now)
    ensures SameBound(s.world, t.world, policy, now)
  {
    StepIsSafe(s, t);
    if id :| ReleaseStep(s, t, id) && IsDoomed(s.world.clips[id], policy, now) {
      ReleaseKeepsBound(s, t, id, policy, now);
    } else if MarkStep(s, t) {
      MarkKeepsBound(s, t, policy, now);
    } else {
      SameWorldSameBound(s.world, t.world, policy, now);
    }
  }

  lemma {:induction false} LgpdRunKeepsBound(run: seq<System>, i: nat, policy: RetentionPolicy, now: Time)
    requires IsLgpdRun(run, policy, now) && IsSafe(run[0]) && run[0].phase == Idle && i < |run|
    ensures IsSafe(run[i]) && TakesUpDoomed(run[i], policy, now)
    ensures SameBound(run[0].world, run[i].world, policy, now)
  {
    if i > 0 {
      LgpdRunKeepsBound(run, i - 1, policy, now);
      assert LgpdStepAt(run, i - 1, policy, now);
      LgpdStepKeepsBound(run[i - 1], run[i], policy, now);
    }
  }

  /** A sweep without failures arrives where sweeps are bound. */
  lemma CompleteSweepSettles(w: World, volume: Volume, policy: RetentionPolicy, listing: seq<MediaClip>, now: Time,
                             clock: nat -> Time)
    requires volume.capacityBytes > 0 && IsSafe(System(w, Idle)) && IsListing(w, listing) && clock(0) == now
    ensures var v := Sweep(w, volume, NO_FAULTS, [Lgpd(policy)], listing, now, clock).0;
      v.clips == SettledClips(w, policy, now) && v.files == SettledFiles(w, policy, now)
  {
    var selected := Expired(Candidates(w, NO_FAULTS, listing), policy, now);
    var context, report := ContextOf(w, volume, now), Begin(w, volume, NO_FAULTS, listing, now).report;
    var v := PurgeAll(w, NO_FAULTS, selected, RetentionPeriodExpired, context, report).0;
    LgpdSweepIsPurgeAll(w, volume, policy, listing, now, clock);
    var run := [System(w, Idle)] + LgpdSweepSteps(w, volume, NO_FAULTS, policy, listing, now);
    ExpiredAreTheDoomed(w, NO_FAULTS, listing, policy, now);
    PurgeAllIsRun(w, NO_FAULTS, selected, RetentionPeriodExpired, context, report, policy, now);
    LgpdRunKeepsBound(run, |run| - 1, policy, now);
    PurgeAllOnlyPurges(w, NO_FAULTS, selected, RetentionPeriodExpired, context, report);
    forall id | id in v.clips ensures !IsDoomed(v.clips[id], policy, now) {
      if IsDoomed(w.clips[id], policy, now) {
        var c :| c in selected && c.clip.clipId == id;
        assert !IsPurgeable(v, id);
      }
    }
    NothingDoomedIsSettled(v, policy, now);
  }

  lemma LgpdSweepIsPurgeAll(w: World, volume: Volume, policy: RetentionPolicy, listing: seq<MediaClip>, now: Time,
                            clock: nat -> Time)
    requires volume.capacityBytes > 0 && clock(0) == now
    ensures Sweep(w, volume, NO_FAULTS, [Lgpd(policy)], listing, now, clock).0 ==
      PurgeAll(w, NO_FAULTS, Expired(Candidates(w, NO_FAULTS, listing), policy, now), RetentionPeriodExpired,
               ContextOf(w, volume, now), Begin(w, volume, NO_FAULTS, listing, now).report).0
  {
    var p := Begin(w, volume, NO_FAULTS, listing, now);
    var strategies := [Lgpd(policy)];
    assert strategies[..0] == [];
    assert ApplyAll(p, volume, NO_FAULTS, strategies[..0], clock) == (p, None);
    assert ApplyAll(p, volume, NO_FAULTS, strategies, clock) == ApplyStrategy(p, volume, NO_FAULTS, Lgpd(policy), now);
  }

  lemma NothingDoomedIsSettled(w: World, policy: RetentionPolicy, now: Time)
    requires forall id :: id in w.clips ==> !IsDoomed(w.clips[id], policy, now)
    ensures SettledClips(w, policy, now) == w.clips && SettledFiles(w, policy, now) == w.files
  {
    forall p ensures !IsDoomedPath(w, p, policy, now) {
    }
  }

  /** However many sweeps were cut off or failed on the way, one complete sweep at the same instant
      leaves the records and the files that an uninterrupted sweep from the beginning leaves. */
  lemma CrashesLeaveNoTrace(run: seq<System>, volume: Volume, policy: RetentionPolicy, now: Time, clock: nat -> Time,
                            rerunListing: seq<MediaClip>, listing: seq<MediaClip>)
    requires volume.capacityBytes > 0 && clock(0) == now
    requires IsLgpdRun(run, policy, now) && IsSafe(run[0]) && run[0].phase == Idle
    requires IsListing(run[0].world, listing) && IsListing(run[|run| - 1].world, rerunListing)
    ensures var rerun := Sweep(run[|run| - 1].world, volume, NO_FAULTS, [Lgpd(policy)], rerunListing, now, clock).0;
      var uninterrupted := Sweep(run[0].world, volume, NO_FAULTS, [Lgpd(policy)], listing, now, clock).0;
      rerun.clips == uninterrupted.clips && rerun.files == uninterrupted.files
  {
    var last := run[|run| - 1];
    LgpdRunKeepsBound(run, |run| - 1, policy, now);
    var restarted := System(last.world, Idle);
    CompleteSweepSettles(last.world, volume, policy, rerunListing, now, clock);
    CompleteSweepSettles(run[0].world, volume, policy, listing, now, clock);
  }

  /** The case of one sweep, with whatever failures, that crashes after any of its steps. */
  lemma CrashThenRerun(w: World, volume: Volume, faults: Faults, policy: RetentionPolicy, now: Time, clock: nat -> Time,
                       k: nat, listing: seq<MediaClip>, rerunListing: seq<MediaClip>)
    requires volume.capacityBytes > 0 && clock(0) == now && IsSafe(System(w, Idle)) && IsListing(w, listing)
    requires k <= |LgpdSweepSteps(w, volume, faults, policy, listing, now)|
    requires IsListing(([System(w, Idle)] + LgpdSweepSteps(w, volume, faults, policy, listing, now))[k].world,
                       rerunListing)
    ensures var crashed := ([System(w, Idle)] + LgpdSweepSteps(w, volume, faults, policy, listing, now))[k].world;
      var rerun := Sweep(crashed, volume, NO_FAULTS, [Lgpd(policy)], rerunListing, now, clock).0;
      var uninterrupted := Sweep(w, volume, NO_FAULTS, [Lgpd(policy)], listing, now, clock).0;
      rerun.clips == uninterrupted.clips && rerun.files == uninterrupted.files
  {
    LgpdSweepIsRun(w, volume, faults, policy, listing, now);
    var run := [System(w, Idle)] + LgpdSweepSteps(w, volume, faults, policy, listing, now);
    var part := run[..k + 1];
    forall i | 0 <= i < |part| - 1 ensures LgpdStepAt(part, i, policy, now) {
      assert LgpdStepAt(run, i, policy, now);
    }
    CrashesLeaveNoTrace(part, volume, policy, now, clock, rerunListing, listing);
  }
}
