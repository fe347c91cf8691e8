/** What a purge writes about a clip, in the report and in the log, is true: who, when, why, what became of
    the file, and how many bytes that freed. */
module PurgeEntries {
  import opened Outcomes
  import opened Sequences
  import opened Retention
  import opened PurgeSelection
  import opened PurgeSweep
  import opened PurgeProtocol
  import opened PurgeCrash
  import opened PurgeAccounting
  import opened PurgeReporting

  // -------------------------------------------------------------- one clip

  /** Another retained clip of the same event names the file. */
  ghost predicate IsNeededByEvent(w: World, clip: MediaClip) {
    exists other :: other != clip.clipId && IsHeldBy(w, clip.filePath, other) && w.clips[other].eventId == clip.eventId
  }

  /** Some call fails before the record is marked; calls that are not made do not fail. */
  ghost predicate IsHindered(w: World, faults: Faults, clip: MediaClip) {
    || clip.clipId in faults.update
    || (clip.filePath in w.files && clip.clipId in faults.lookup)
    || (clip.filePath in w.files && !IsNeededByEvent(w, clip) && clip.clipId in faults.removal)
  }

  /** The entry tells what happened between the two worlds. */
  ghost predicate IsEntryFor(w: World, v: World, clip: MediaClip, sizeBytes: nat, reason: PurgeReason,
                             context: RetentionContext, entry: PurgeLogEntry)
  {
    var usage := context.diskUsage;
    && entry.clipId == clip.clipId && entry.eventId == clip.eventId && entry.filePath == clip.filePath
    && entry.reason == reason && entry.purgedAt == context.now
    && entry.diskUsedRatio == usage.usedBytes as real / (usage.usedBytes + usage.availableBytes) as real
    && (entry.fileOutcome == Deleted <==> clip.filePath in w.files && clip.filePath !in v.files)
    && (entry.fileOutcome == AlreadyMissing <==> clip.filePath !in w.files)
    && (entry.fileOutcome == KeptForOtherClip <==> clip.filePath in v.files)
    && entry.bytesFreed == if clip.filePath in w.files && clip.filePath !in v.files then sizeBytes else 0
  }

  /** The clip is marked, and its file is gone unless the event still needs it. */
  ghost predicate IsPurgedFrom(w: World, v: World, clip: MediaClip) {
    && v.clips == w.clips[clip.clipId := clip.(isRetained := false)]
    && v.files == if IsNeededByEvent(w, clip) then w.files else w.files - {clip.filePath}
  }

  /** What a failed purge leaves of the files: the one of the clip is gone when nothing but the update failed. */
  ghost function FilesAfterFailure(w: World, faults: Faults, clip: MediaClip): map<Path, nat> {
    if clip.clipId in faults.lookup || clip.clipId in faults.removal || IsNeededByEvent(w, clip) then w.files
    else w.files - {clip.filePath}
  }

  lemma SharingIsNeed(w: World, clip: MediaClip)
    requires KeyedById(w)
    ensures IsSharedWithRetainedClip(w, clip) <==> IsNeededByEvent(w, clip)
  {
    if other :| other != clip.clipId && IsHeldBy(w, clip.filePath, other) && w.clips[other].eventId == clip.eventId {
      assert w.clips[other].clipId == other;
    }
    if id :| id in w.clips && w.clips[id].eventId == clip.eventId && w.clips[id].clipId != clip.clipId
             && w.clips[id].isRetained && w.clips[id].filePath == clip.filePath {
      assert IsHeldBy(w, clip.filePath, id);
    }
  }

  lemma HinderedCannotPurge(w: World, faults: Faults, clip: MediaClip)
    requires KeyedById(w)
    ensures CannotPurge(w, faults, clip) <==> IsHindered(w, faults, clip)
  {
    SharingIsNeed(w, clip);
  }

  lemma FailureLeavesFiles(w: World, faults: Faults, c: PurgeCandidate, reason: PurgeReason, context: RetentionContext,
                           report: PurgeReport)
    requires KeyedById(w) && IsPurgeable(w, c.clip.clipId) && IsHindered(w, faults, w.clips[c.clip.clipId])
    ensures Purge(w, faults, c, reason, context, report).0.files
      == FilesAfterFailure(w, faults, w.clips[c.clip.clipId])
  {
    var clip := w.clips[c.clip.clipId];
    HinderedCannotPurge(w, faults, clip);
    SharingIsNeed(w, clip);
    assert clip.filePath !in w.files ==> w.files - {clip.filePath} == w.files;
  }

  /** A clip that could be purged, and for which no call fails. */
  lemma EntryIsTrue(w: World, faults: Faults, c: PurgeCandidate, reason: PurgeReason, context: RetentionContext,
                    report: PurgeReport) returns (entry: PurgeLogEntry)
    requires KeyedById(w) && IsPurgeable(w, c.clip.clipId) && !IsHindered(w, faults, w.clips[c.clip.clipId])
    ensures var (v, after) := Purge(w, faults, c, reason, context, report);
      var clip := w.clips[c.clip.clipId];
      && IsEntryFor(w, v, clip, c.sizeBytes, reason, context, entry) && IsPurgedFrom(w, v, clip)
      && after.purged == report.purged + [entry]
      && v.log == w.log + (if clip.clipId in faults.logging then [] else [entry])
  {
    var clip := w.clips[c.clip.clipId];
    HinderedCannotPurge(w, faults, clip);
    SharingIsNeed(w, clip);
    var (released, outcome) := ReleaseFile(w, faults, clip).value;
    entry := EntryFor(clip, c.sizeBytes, reason, outcome, context);
    assert released.log == w.log && released.clips == w.clips;
    assert clip.filePath !in w.files ==> w.files - {clip.filePath} == w.files;
  }

  /** The purge of one clip, in full: skipped when it is gone, purged or locked, failed when a call fails, and
      else purged, with a true entry that reaches the log unless logging fails. */
  lemma OnePurgeIsTold(w: World, faults: Faults, c: PurgeCandidate, reason: PurgeReason, context: RetentionContext,
                       report: PurgeReport)
    requires KeyedById(w)
    ensures var id := c.clip.clipId;
      var (v, after) := Purge(w, faults, c, reason, context, report);
      if id !in w.clips || !w.clips[id].isRetained || w.clips[id].isLockedForAudit then
        v == w && after == report.(skippedNoLongerEligible := report.skippedNoLongerEligible + 1)
      else if IsHindered(w, faults, w.clips[id]) then
        && v.clips == w.clips && v.log == w.log && v.files == FilesAfterFailure(w, faults, w.clips[id])
        && after.purged == report.purged
        && after.failures == report.failures + [PurgeFailure(id, w.clips[id].filePath, false)]
      else
        exists entry ::
          && IsEntryFor(w, v, w.clips[id], c.sizeBytes, reason, context, entry) && IsPurgedFrom(w, v, w.clips[id])
          && Adds(report, after, entry)
          && v.log == w.log + (if id in faults.logging then [] else [entry])
  {
    if IsPurgeable(w, c.clip.clipId) {
      HinderedCannotPurge(w, faults, w.clips[c.clip.clipId]);
      if IsHindered(w, faults, w.clips[c.clip.clipId]) {
        FailureIsTold(w, faults, c, reason, context, report);
        FailureLeavesFiles(w, faults, c, reason, context, report);
      } else {
        var entry := EntryIsTrue(w, faults, c, reason, context, report);
        assert Adds(report, Purge(w, faults, c, reason, context, report).1, entry);
      }
    }
  }

  // ------------------------------------------------------------- one sweep

  /** The entry tells the truth of a sweep that began in w and has led to v: it was made by strategy k. */
  ghost predicate IsTrueEntry(w: World, v: World, faults: Faults, strategies: seq<Strategy>, clock: nat -> Time, k: nat,
                              entry: PurgeLogEntry)
    requires k < |strategies|
  {
    && entry.clipId in w.clips
    && var clip := w.clips[entry.clipId];
    && clip.isRetained && !clip.isLockedForAudit
    && entry.eventId == clip.eventId && entry.filePath == clip.filePath
    && entry.purgedAt == clock(k)
    && entry.reason == (if strategies[k].Lgpd? then RetentionPeriodExpired else DiskQuotaExceeded)
    && (strategies[k].Lgpd? ==> IsTermOver(clip, strategies[k].retention, clock(k)))
    && (if entry.fileOutcome == Deleted
        then
          && clip.filePath in w.files && clip.filePath !in v.files
          && entry.bytesFreed == if entry.clipId in faults.sizing then 0 else w.files[clip.filePath]
        else entry.bytesFreed == 0)
  }

  ghost predicate IsTrueEntryBefore(w: World, v: World, faults: Faults, strategies: seq<Strategy>, clock: nat -> Time,
                                    m: nat, entry: PurgeLogEntry)
    requires m <= |strategies|
  {
    exists k :: 0 <= k < m && IsTrueEntry(w, v, faults, strategies, clock, k, entry)
  }

  /** The sweep has come to v. */
  ghost predicate IsUnderWay(w: World, v: World, faults: Faults, strategies: seq<Strategy>, clock: nat -> Time, m: nat,
                             purged: seq<PurgeLogEntry>)
    requires m <= |strategies|
  {
    && KeyedById(w) && KeyedById(v) && OnlyPurges(w, v)
    && (forall p :: p in v.files ==> p in w.files && v.files[p] == w.files[p])
    && forall entry :: entry in purged ==> IsTrueEntryBefore(w, v, faults, strategies, clock, m, entry)
  }

  /** A candidate as strategy k may select it. */
  ghost predicate IsChoiceOf(w: World, faults: Faults, strategy: Strategy, now: Time, c: PurgeCandidate) {
    IsMeasured(w, faults, c) && (strategy.Lgpd? ==> IsTermOver(c.clip, strategy.retention, now))
  }

  lemma FilesOnlyShrink(w: World, faults: Faults, c: PurgeCandidate, reason: PurgeReason, context: RetentionContext,
                        report: PurgeReport)
    ensures var v := Purge(w, faults, c, reason, context, report).0;
      forall p :: p in v.files ==> p in w.files && v.files[p] == w.files[p]
  {
  }

  lemma EntriesStayTrue(w: World, v: World, x: World, faults: Faults, strategies: seq<Strategy>, clock: nat -> Time,
                        m: nat, purged: seq<PurgeLogEntry>)
    requires m <= |strategies| && IsUnderWay(w, v, faults, strategies, clock, m, purged)
    requires forall p :: p in x.files ==> p in v.files && x.files[p] == v.files[p]
    ensures forall entry :: entry in purged ==> IsTrueEntryBefore(w, x, faults, strategies, clock, m, entry)
  {
    forall entry | entry in purged ensures IsTrueEntryBefore(w, x, faults, strategies, clock, m, entry) {
      var k :| 0 <= k < m && IsTrueEntry(w, v, faults, strategies, clock, k, entry);
      assert IsTrueEntry(w, x, faults, strategies, clock, k, entry);
    }
  }

  lemma NewEntryIsTrue(w: World, v: World, faults: Faults, strategies: seq<Strategy>, clock: nat -> Time, k: nat,
                       c: PurgeCandidate, context: RetentionContext, report: PurgeReport)
    requires k < |strategies| && IsUnderWay(w, v, faults, strategies, clock, k + 1, report.purged)
    requires context.now == clock(k) && IsChoiceOf(w, faults, strategies[k], clock(k), c)
    requires IsPurgeable(v, c.clip.clipId) && !IsHindered(v, faults, v.clips[c.clip.clipId])
    ensures var (x, after) := Purge(v, faults, c, strategies[k].Reason(), context, report);
      forall entry :: entry in after.purged ==>
        entry in report.purged || IsTrueEntry(w, x, faults, strategies, clock, k, entry)
  {
    var entry := EntryIsTrue(v, faults, c, strategies[k].Reason(), context, report);
    var x := Purge(v, faults, c, strategies[k].Reason(), context, report).0;
    assert v.clips[c.clip.clipId] == w.clips[c.clip.clipId] == c.clip;
    assert IsTrueEntry(w, x, faults, strategies, clock, k, entry);
  }

  lemma PurgeStaysTrue(w: World, v: World, faults: Faults, strategies: seq<Strategy>, clock: nat -> Time, k: nat,
                       c: PurgeCandidate, context: RetentionContext, report: PurgeReport)
    requires k < |strategies| && IsUnderWay(w, v, faults, strategies, clock, k + 1, report.purged)
    requires context.now == clock(k) && IsChoiceOf(w, faults, strategies[k], clock(k), c)
    ensures var (x, after) := Purge(v, faults, c, strategies[k].Reason(), context, report);
      IsUnderWay(w, x, faults, strategies, clock, k + 1, after.purged)
  {
    var (x, after) := Purge(v, faults, c, strategies[k].Reason(), context, report);
    PurgeOnlyPurges(v, faults, c, strategies[k].Reason(), context, report);
    FilesOnlyShrink(v, faults, c, strategies[k].Reason(), context, report);
    EntriesStayTrue(w, v, x, faults, strategies, clock, k + 1, report.purged);
    OnePurgeIsTold(v, faults, c, strategies[k].Reason(), context, report);
    if IsPurgeable(v, c.clip.clipId) && !IsHindered(v, faults, v.clips[c.clip.clipId]) {
      NewEntryIsTrue(w, v, faults, strategies, clock, k, c, context, report);
    }
  }

  lemma {:induction false} PurgesStayTrue(w: World, v: World, faults: Faults, strategies: seq<Strategy>,
                                          clock: nat -> Time, k: nat, selected: seq<PurgeCandidate>,
                                          context: RetentionContext, report: PurgeReport)
    requires k < |strategies| && IsUnderWay(w, v, faults, strategies, clock, k + 1, report.purged)
    requires context.now == clock(k)
    requires forall c :: c in selected ==> IsChoiceOf(w, faults, strategies[k], clock(k), c)
    ensures var (x, after) := PurgeAll(v, faults, selected, strategies[k].Reason(), context, report);
      IsUnderWay(w, x, faults, strategies, clock, k + 1, after.purged)
  {
    if selected != [] {
      var n := |selected| - 1;
      PurgesStayTrue(w, v, faults, strategies, clock, k, selected[..n], context, report);
      var (x, soFar) := PurgeAll(v, faults, selected[..n], strategies[k].Reason(), context, report);
      assert selected[n] in selected;
      PurgeStaysTrue(w, x, faults, strategies, clock, k, selected[n], context, soFar);
    }
  }

  lemma SelectedAreChoices(w: World, faults: Faults, strategy: Strategy, remaining: seq<PurgeCandidate>,
                           context: RetentionContext)
    requires Select(strategy, remaining, context).Success?
    requires forall c :: c in remaining ==> IsMeasured(w, faults, c)
    ensures forall c :: c in Select(strategy, remaining, context).value ==>
      IsChoiceOf(w, faults, strategy, context.now, c)
  {
    SelectedAreCandidates(strategy, remaining, context);
    if strategy.Lgpd? {
      LgpdSelectsTheDue(strategy.retention, remaining, context);
      FilterElements(remaining, (c: PurgeCandidate) => IsDue(c.clip, strategy.retention, context.now));
    }
  }

  ghost predicate ProgressIsTrue(w: World, p: Progress, faults: Faults, strategies: seq<Strategy>, clock: nat -> Time,
                                 m: nat)
    requires m <= |strategies|
  {
    && IsUnderWay(w, p.world, faults, strategies, clock, m, p.report.purged)
    && forall c :: c in p.remaining ==> IsMeasured(w, faults, c)
  }

  lemma MoreStrategies(w: World, p: Progress, faults: Faults, strategies: seq<Strategy>, clock: nat -> Time, m: nat)
    requires m < |strategies| && ProgressIsTrue(w, p, faults, strategies, clock, m)
    ensures ProgressIsTrue(w, p, faults, strategies, clock, m + 1)
  {
    forall entry | entry in p.report.purged
      ensures IsTrueEntryBefore(w, p.world, faults, strategies, clock, m + 1, entry)
    {
      var k :| 0 <= k < m && IsTrueEntry(w, p.world, faults, strategies, clock, k, entry);
    }
  }

  lemma StrategyStaysTrue(w: World, p: Progress, volume: Volume, faults: Faults, strategies: seq<Strategy>,
                          clock: nat -> Time, k: nat)
    requires volume.capacityBytes > 0 && k < |strategies| && ProgressIsTrue(w, p, faults, strategies, clock, k)
    ensures ProgressIsTrue(w, ApplyStrategy(p, volume, faults, strategies[k], clock(k)).0, faults, strategies, clock,
                           k + 1)
  {
    var context := ContextOf(p.world, volume, clock(k));
    MoreStrategies(w, p, faults, strategies, clock, k);
    var chosen := Select(strategies[k], p.remaining, context);
    if chosen.Success? {
      SelectedAreChoices(w, faults, strategies[k], p.remaining, context);
      PurgesStayTrue(w, p.world, faults, strategies, clock, k, chosen.value, context, p.report);
      WithoutAllElements(p.remaining, chosen.value);
    }
  }

  lemma {:induction false} StrategiesStayTrue(w: World, p: Progress, volume: Volume, faults: Faults,
                                              strategies: seq<Strategy>, clock: nat -> Time, m: nat)
    requires volume.capacityBytes > 0 && m <= |strategies| && ProgressIsTrue(w, p, faults, strategies, clock, 0)
    ensures ProgressIsTrue(w, ApplyAll(p, volume, faults, strategies[..m], clock).0, faults, strategies, clock, m)
    decreases m
  {
    if m > 0 {
      var n := m - 1;
      StrategiesStayTrue(w, p, volume, faults, strategies, clock, n);
      assert strategies[..m][..n] == strategies[..n];
      var (q, error) := ApplyAll(p, volume, faults, strategies[..n], clock);
      if error.None? {
        StrategyStaysTrue(w, q, volume, faults, strategies, clock, n);
      } else {
        MoreStrategies(w, q, faults, strategies, clock, n);
      }
    } else {
      assert strategies[..0] == [];
    }
  }

  /** Every entry of a sweep's report is true, for any strategies and any failures: the clip was retained and
      not locked, the reason is that of the strategy at work at that instant, under LGPD the term was over,
      and a deletion is reported exactly with the bytes the file had. The report says when it began. */
  lemma EntriesAreTrue(w: World, volume: Volume, faults: Faults, strategies: seq<Strategy>, listing: seq<MediaClip>,
                       startedAt: Time, clock: nat -> Time)
    requires volume.capacityBytes > 0 && KeyedById(w) && IsListing(w, listing)
    ensures var (v, r) := Sweep(w, volume, faults, strategies, listing, startedAt, clock);
      r.Success? ==> r.value.startedAt == startedAt && forall entry :: entry in r.value.purged ==>
        exists k :: 0 <= k < |strategies| && IsTrueEntry(w, v, faults, strategies, clock, k, entry)
  {
    var begin := Begin(w, volume, faults, listing, startedAt);
    CandidatesAreMeasured(w, faults, listing);
    StrategiesStayTrue(w, begin, volume, faults, strategies, clock, |strategies|);
    assert strategies[..|strategies|] == strategies;
    var p := ApplyAll(begin, volume, faults, strategies, clock).0;
    StartIsKept(begin, volume, faults, strategies, clock);
    forall entry | entry in p.report.purged
      ensures exists k :: 0 <= k < |strategies| && IsTrueEntry(w, p.world, faults, strategies, clock, k, entry)
    {
      assert IsTrueEntryBefore(w, p.world, faults, strategies, clock, |strategies|, entry);
    }
  }

  lemma {:induction false} PurgesKeepStart(w: World, faults: Faults, selected: seq<PurgeCandidate>, reason: PurgeReason,
                                           context: RetentionContext, report: PurgeReport)
    ensures PurgeAll(w, faults, selected, reason, context, report).1.startedAt == report.startedAt
  {
    if selected != [] {
      PurgesKeepStart(w, faults, selected[..|selected| - 1], reason, context, report);
    }
  }

  lemma {:induction false} StartIsKept(p: Progress, volume: Volume, faults: Faults, strategies: seq<Strategy>,
                                       clock: nat -> Time)
    requires volume.capacityBytes > 0
    ensures ApplyAll(p, volume, faults, strategies, clock).0.report.startedAt == p.report.startedAt
  {
    if strategies != [] {
      var n := |strategies| - 1;
      StartIsKept(p, volume, faults, strategies[..n], clock);
      var (q, error) := ApplyAll(p, volume, faults, strategies[..n], clock);
      var context := ContextOf(q.world, volume, clock(n));
      var chosen := Select(strategies[n], q.remaining, context);
      if error.None? && chosen.Success? {
        PurgesKeepStart(q.world, faults, chosen.value, strategies[n].Reason(), context, q.report);
      }
    }
  }

  // ----------------------------------------------------- LGPD before quota

  lemma {:induction false} EntriesAreOfSelected(w: World, faults: Faults, selected: seq<PurgeCandidate>,
                                                reason: PurgeReason, context: RetentionContext, report: PurgeReport)
    requires KeyedById(w)
    ensures forall entry :: entry in PurgeAll(w, faults, selected, reason, context, report).1.purged ==>
      entry in report.purged || entry.clipId in IdsOf(selected)
  {
    if selected != [] {
      var n := |selected| - 1;
      EntriesAreOfSelected(w, faults, selected[..n], reason, context, report);
      IdsOfAll(selected);
      PurgeAllOnlyPurges(w, faults, selected[..n], reason, context, report);
      var (v, soFar) := PurgeAll(w, faults, selected[..n], reason, context, report);
      OnePurgeIsTold(v, faults, selected[n], reason, context, soFar);
    }
  }

  /** The first strategy of a sweep, on all candidates. */
  ghost function AfterFirst(w: World, volume: Volume, faults: Faults, strategies: seq<Strategy>,
                            listing: seq<MediaClip>, startedAt: Time, clock: nat -> Time): Progress
    requires volume.capacityBytes > 0 && strategies != []
  {
    ApplyStrategy(Begin(w, volume, faults, listing, startedAt), volume, faults, strategies[0], clock(0)).0
  }

  lemma ListedAreEligible(w: World, faults: Faults, listing: seq<MediaClip>, c: PurgeCandidate)
    requires IsListing(w, listing) && c in Candidates(w, faults, listing)
    ensures IsEligibleForPurge(c.clip)
  {
    CandidatesAreListed(w, faults, listing);
    var i :| 0 <= i < |listing| && Candidates(w, faults, listing)[i] == c;
    assert listing[i] in listing;
  }

  lemma NoneIsLeftDue(w: World, volume: Volume, faults: Faults, policy: RetentionPolicy, listing: seq<MediaClip>,
                      startedAt: Time, now: Time)
    requires volume.capacityBytes > 0 && KeyedById(w) && IsListing(w, listing)
    ensures var p := ApplyStrategy(Begin(w, volume, faults, listing, startedAt), volume, faults, Lgpd(policy), now).0;
      forall c :: c in p.remaining ==> !IsTermOver(c.clip, policy, now)
  {
    var begin := Begin(w, volume, faults, listing, startedAt);
    var context := ContextOf(w, volume, now);
    LgpdSelectsTheDue(policy, begin.remaining, context);
    FilterElements(begin.remaining, (c: PurgeCandidate) => IsDue(c.clip, policy, context.now));
    WithoutAllElements(begin.remaining, Select(Lgpd(policy), begin.remaining, context).value);
    forall c | c in begin.remaining ensures IsEligibleForPurge(c.clip) {
      ListedAreEligible(w, faults, listing, c);
    }
  }

  lemma LgpdGoesFirst(w: World, volume: Volume, faults: Faults, strategies: seq<Strategy>, listing: seq<MediaClip>,
                      startedAt: Time, clock: nat -> Time)
    requires volume.capacityBytes > 0 && KeyedById(w) && IsListing(w, listing)
    requires strategies != [] && strategies[0].Lgpd?
    ensures var p := AfterFirst(w, volume, faults, strategies, listing, startedAt, clock);
      && ProgressIsTrue(w, p, faults, strategies, clock, 1)
      && forall c :: c in p.remaining ==> !IsTermOver(c.clip, strategies[0].retention, clock(0))
  {
    CandidatesAreMeasured(w, faults, listing);
    StrategyStaysTrue(w, Begin(w, volume, faults, listing, startedAt), volume, faults, strategies, clock, 0);
    NoneIsLeftDue(w, volume, faults, strategies[0].retention, listing, startedAt, clock(0));
  }

  lemma OneStrategy(p: Progress, volume: Volume, faults: Faults, strategy: Strategy, clock: nat -> Time)
    requires volume.capacityBytes > 0
    ensures ApplyAll(p, volume, faults, [strategy], clock) == ApplyStrategy(p, volume, faults, strategy, clock(0))
  {
    assert [strategy][..0] == [];
  }

  lemma TwoStrategies(p: Progress, volume: Volume, faults: Faults, strategies: seq<Strategy>, clock: nat -> Time)
    requires volume.capacityBytes > 0 && |strategies| == 2 && strategies[0].Lgpd?
    ensures var q := ApplyStrategy(p, volume, faults, strategies[0], clock(0)).0;
      ApplyAll(p, volume, faults, strategies, clock) == ApplyStrategy(q, volume, faults, strategies[1], clock(1))
  {
    assert strategies[..1] == [strategies[0]];
    OneStrategy(p, volume, faults, strategies[0], clock);
  }

  lemma SecondIsQuota(w: World, volume: Volume, faults: Faults, strategies: seq<Strategy>, listing: seq<MediaClip>,
                      startedAt: Time, clock: nat -> Time)
    requires volume.capacityBytes > 0 && |strategies| == 2 && strategies[0].Lgpd?
    requires Sweep(w, volume, faults, strategies, listing, startedAt, clock).1.Success?
    ensures var p := AfterFirst(w, volume, faults, strategies, listing, startedAt, clock);
      var context := ContextOf(p.world, volume, clock(1));
      var chosen := Select(strategies[1], p.remaining, context);
      && chosen.Success?
      && Sweep(w, volume, faults, strategies, listing, startedAt, clock).1.value.purged
        == PurgeAll(p.world, faults, chosen.value, strategies[1].Reason(), context, p.report).1.purged
  {
    TwoStrategies(Begin(w, volume, faults, listing, startedAt), volume, faults, strategies, clock);
  }

  lemma QuotaTakesTheRest(w: World, volume: Volume, faults: Faults, strategies: seq<Strategy>, listing: seq<MediaClip>,
                          startedAt: Time, clock: nat -> Time, entry: PurgeLogEntry)
    requires volume.capacityBytes > 0 && KeyedById(w) && IsListing(w, listing)
    requires |strategies| == 2 && strategies[0].Lgpd? && strategies[1].DiskQuotaFifo?
    requires Sweep(w, volume, faults, strategies, listing, startedAt, clock).1.Success?
    requires entry in Sweep(w, volume, faults, strategies, listing, startedAt, clock).1.value.purged
    requires entry.clipId in w.clips && IsTermOver(w.clips[entry.clipId], strategies[0].retention, clock(0))
    ensures entry.reason == RetentionPeriodExpired
  {
    var p := AfterFirst(w, volume, faults, strategies, listing, startedAt, clock);
    LgpdGoesFirst(w, volume, faults, strategies, listing, startedAt, clock);
    SecondIsQuota(w, volume, faults, strategies, listing, startedAt, clock);
    var context := ContextOf(p.world, volume, clock(1));
    var chosen := Select(strategies[1], p.remaining, context).value;
    SelectedAreCandidates(strategies[1], p.remaining, context);
    EntriesAreOfSelected(p.world, faults, chosen, strategies[1].Reason(), context, p.report);
    forall c | c in chosen ensures c.clip.clipId != entry.clipId {
      assert c in p.remaining && IsMeasured(w, faults, c);
    }
    assert IsTrueEntryBefore(w, p.world, faults, strategies, clock, 1, entry);
  }

  lemma ReasonIsExact(w: World, volume: Volume, faults: Faults, strategies: seq<Strategy>, listing: seq<MediaClip>,
                      startedAt: Time, clock: nat -> Time, entry: PurgeLogEntry)
    requires volume.capacityBytes > 0 && KeyedById(w) && IsListing(w, listing)
    requires |strategies| == 2 && strategies[0].Lgpd? && strategies[1].DiskQuotaFifo?
    requires Sweep(w, volume, faults, strategies, listing, startedAt, clock).1.Success?
    requires entry in Sweep(w, volume, faults, strategies, listing, startedAt, clock).1.value.purged
    ensures entry.clipId in w.clips
    ensures entry.reason ==
      if IsTermOver(w.clips[entry.clipId], strategies[0].retention, clock(0)) then RetentionPeriodExpired
      else DiskQuotaExceeded
  {
    EntriesAreTrue(w, volume, faults, strategies, listing, startedAt, clock);
    var v := Sweep(w, volume, faults, strategies, listing, startedAt, clock).0;
    var k :| 0 <= k < 2 && IsTrueEntry(w, v, faults, strategies, clock, k, entry);
    if IsTermOver(w.clips[entry.clipId], strategies[0].retention, clock(0)) {
      QuotaTakesTheRest(w, volume, faults, strategies, listing, startedAt, clock, entry);
    }
  }

  /** LGPD first, then the quota, as the service is set up: a purged clip is reported with an expired term
      exactly when its term was over at the beginning, and with the quota otherwise. */
  lemma ReasonsAreExact(w: World, volume: Volume, faults: Faults, policy: RetentionPolicy, quota: QuotaPolicy,
                        listing: seq<MediaClip>, startedAt: Time, clock: nat -> Time)
    requires volume.capacityBytes > 0 && KeyedById(w) && IsListing(w, listing)
    ensures var r := Sweep(w, volume, faults, [Lgpd(policy), DiskQuotaFifo(quota)], listing, startedAt, clock).1;
      r.Success? ==> forall entry :: entry in r.value.purged ==>
        && entry.clipId in w.clips
        && entry.reason == if IsTermOver(w.clips[entry.clipId], policy, clock(0)) then RetentionPeriodExpired
                           else DiskQuotaExceeded
  {
    var strategies := [Lgpd(policy), DiskQuotaFifo(quota)];
    var r := Sweep(w, volume, faults, strategies, listing, startedAt, clock).1;
    if r.Success? {
      forall entry | entry in r.value.purged
        ensures entry.clipId in w.clips
        ensures entry.reason == if IsTermOver(w.clips[entry.clipId], policy, clock(0)) then RetentionPeriodExpired
                                else DiskQuotaExceeded
      {
        ReasonIsExact(w, volume, faults, strategies, listing, startedAt, clock, entry);
      }
    }
  }

  lemma DueAreMarked(w: World, faults: Faults, chosen: seq<PurgeCandidate>, context: RetentionContext,
                     report: PurgeReport, id: ClipId)
    requires KeyedById(w) && id in w.clips
    ensures var v := PurgeAll(w, faults, chosen, RetentionPeriodExpired, context, report).0;
      && id in v.clips
      && (v.clips[id] == w.clips[id] || (id in IdsOf(chosen) && v.clips[id] == w.clips[id].(isRetained := false)))
      && (faults == NO_FAULTS && id in IdsOf(chosen) && IsPurgeable(w, id) ==> !v.clips[id].isRetained)
  {
    PurgeAllOnlyPurges(w, faults, chosen, RetentionPeriodExpired, context, report);
    if id !in IdsOf(chosen) {
      UnchosenStay(w, faults, chosen, RetentionPeriodExpired, context, report, id);
    }
  }

  lemma DueAreChosen(w: World, faults: Faults, policy: RetentionPolicy, listing: seq<MediaClip>, now: Time, id: ClipId)
    requires KeyedById(w) && IsListing(w, listing) && id in w.clips
    ensures id in IdsOf(Filter(Candidates(w, faults, listing), (c: PurgeCandidate) => IsDue(c.clip, policy, now)))
      <==> IsDue(w.clips[id], policy, now)
  {
    var due := (c: PurgeCandidate) => IsDue(c.clip, policy, now);
    CandidatesAreMeasured(w, faults, listing);
    FilterElements(Candidates(w, faults, listing), due);
    if IsDue(w.clips[id], policy, now) {
      CandidatesAreListed(w, faults, listing);
      assert w.clips[id] in listing;
      var i :| 0 <= i < |listing| && listing[i] == w.clips[id];
      assert Candidates(w, faults, listing)[i] in Filter(Candidates(w, faults, listing), due);
    }
  }

  lemma {:induction false} UnchosenStay(w: World, faults: Faults, chosen: seq<PurgeCandidate>, reason: PurgeReason,
                                        context: RetentionContext, report: PurgeReport, id: ClipId)
    requires KeyedById(w) && id in w.clips && id !in IdsOf(chosen)
    ensures var v := PurgeAll(w, faults, chosen, reason, context, report).0; id in v.clips && v.clips[id] == w.clips[id]
  {
    if chosen != [] {
      var n := |chosen| - 1;
      IdsOfAll(chosen);
      UnchosenStay(w, faults, chosen[..n], reason, context, report, id);
      PurgeAllOnlyPurges(w, faults, chosen[..n], reason, context, report);
      var (v, soFar) := PurgeAll(w, faults, chosen[..n], reason, context, report);
      PurgeOnlyPurges(v, faults, chosen[n], reason, context, soFar);
    }
  }

  /** A sweep with the LGPD strategy marks none but the due clips, whatever fails, and all of them when
      nothing fails. */
  lemma LgpdSweepMarksTheDue(w: World, volume: Volume, faults: Faults, policy: RetentionPolicy,
                             listing: seq<MediaClip>, startedAt: Time, clock: nat -> Time, id: ClipId)
    requires volume.capacityBytes > 0 && KeyedById(w) && IsListing(w, listing) && id in w.clips
    ensures var v := Sweep(w, volume, faults, [Lgpd(policy)], listing, startedAt, clock).0;
      && id in v.clips
      && (v.clips[id] == w.clips[id] ||
          (IsDue(w.clips[id], policy, clock(0)) && v.clips[id] == w.clips[id].(isRetained := false)))
      && (faults == NO_FAULTS && IsDue(w.clips[id], policy, clock(0)) ==> !v.clips[id].isRetained)
  {
    var begin := Begin(w, volume, faults, listing, startedAt);
    var context := ContextOf(w, volume, clock(0));
    OneStrategy(begin, volume, faults, Lgpd(policy), clock);
    LgpdSelectsTheDue(policy, begin.remaining, context);
    var chosen := Filter(begin.remaining, (c: PurgeCandidate) => IsDue(c.clip, policy, context.now));
    DueAreChosen(w, faults, policy, listing, clock(0), id);
    DueAreMarked(w, faults, chosen, context, begin.report, id);
  }
}
