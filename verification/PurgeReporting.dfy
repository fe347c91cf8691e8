/** That a sweep's report is complete: every clip taken in hand is in it once, and so is every entry that
    did not reach the log. */
module PurgeReporting {
  import opened Outcomes
  import opened Sequences
  import opened Retention
  import opened PurgeSweep
  import opened PurgeProtocol
  import opened PurgeCrash
  import opened PurgeAccounting

  /** How often the report has the clip as purged. */
  function Purgings(purged: seq<PurgeLogEntry>, id: ClipId): nat {
    if purged == [] then 0
    else Purgings(purged[..|purged| - 1], id) + if purged[|purged| - 1].clipId == id then 1 else 0
  }

  predicate IsAbout(failure: PurgeFailure, id: ClipId) {
    failure.clipId == id && !failure.isPurgedButNotLogged
  }

  /** How often the report has the clip as one that could not be purged. */
  function Failings(failures: seq<PurgeFailure>, id: ClipId): nat {
    if failures == [] then 0
    else
      Failings(failures[..|failures| - 1], id) + if IsAbout(failures[|failures| - 1], id) then 1 else 0
  }

  /** The entries that reach the log. */
  function Logged(purged: seq<PurgeLogEntry>, faults: Faults): seq<PurgeLogEntry> {
    Filter(purged, (entry: PurgeLogEntry) => entry.clipId !in faults.logging)
  }

  /** The failures the report owes for the entries that do not. */
  function Owed(purged: seq<PurgeLogEntry>, faults: Faults): seq<PurgeFailure> {
    if purged == [] then []
    else
      var last := purged[|purged| - 1];
      Owed(purged[..|purged| - 1], faults)
      + if last.clipId in faults.logging then [PurgeFailure(last.clipId, last.filePath, true)] else []
  }

  /** The failures the report shows for purged clips. */
  function NotLogged(failures: seq<PurgeFailure>): seq<PurgeFailure> {
    Filter(failures, (failure: PurgeFailure) => failure.isPurgedButNotLogged)
  }

  // -------------------------------------------------------------- one purge

  lemma EntryCounts(purged: seq<PurgeLogEntry>, entry: PurgeLogEntry, faults: Faults)
    ensures forall id :: Purgings(purged + [entry], id) == Purgings(purged, id) + if entry.clipId == id then 1 else 0
    ensures Logged(purged + [entry], faults) ==
      Logged(purged, faults) + if entry.clipId in faults.logging then [] else [entry]
    ensures Owed(purged + [entry], faults) == Owed(purged, faults)
      + if entry.clipId in faults.logging then [PurgeFailure(entry.clipId, entry.filePath, true)] else []
  {
    assert (purged + [entry])[..|purged|] == purged;
    FilterAppend(purged, [entry], (e: PurgeLogEntry) => e.clipId !in faults.logging);
  }

  lemma FailureCounts(failures: seq<PurgeFailure>, failure: PurgeFailure)
    ensures forall id ::
      Failings(failures + [failure], id) == Failings(failures, id) + if IsAbout(failure, id) then 1 else 0
    ensures NotLogged(failures + [failure]) ==
      NotLogged(failures) + if failure.isPurgedButNotLogged then [failure] else []
  {
    assert (failures + [failure])[..|failures|] == failures;
    FilterAppend(failures, [failure], (f: PurgeFailure) => f.isPurgedButNotLogged);
  }

  /** The log begins as `past`, and the report tells what was added to it and what was not. */
  ghost predicate LogIsTold(past: seq<PurgeLogEntry>, w: World, faults: Faults, report: PurgeReport) {
    && w.log == past + Logged(report.purged, faults)
    && NotLogged(report.failures) == Owed(report.purged, faults)
  }

  /** What the report gains for a clip between two worlds: an entry when its record is marked, a failure when
      it was in hand and is still purgeable. */
  ghost predicate IsTold(w: World, v: World, before: PurgeReport, after: PurgeReport, id: ClipId,
                         inHand: set<ClipId>) {
    && Purgings(after.purged, id) ==
      Purgings(before.purged, id) + (if IsPurgeable(w, id) && !IsPurgeable(v, id) then 1 else 0)
    && Failings(after.failures, id) ==
      Failings(before.failures, id) + (if id in inHand && IsPurgeable(w, id) && IsPurgeable(v, id) then 1 else 0)
  }

  predicate CannotPurge(w: World, faults: Faults, clip: MediaClip) {
    ReleaseFile(w, faults, clip).None? || clip.clipId in faults.update
  }

  /** A failed purge leaves the records and the log alone and adds one failure. */
  lemma FailureIsTold(w: World, faults: Faults, c: PurgeCandidate, reason: PurgeReason, context: RetentionContext,
                      report: PurgeReport)
    requires KeyedById(w) && IsPurgeable(w, c.clip.clipId) && CannotPurge(w, faults, w.clips[c.clip.clipId])
    ensures var (v, after) := Purge(w, faults, c, reason, context, report);
      && v.clips == w.clips && v.log == w.log
      && after.purged == report.purged && after.skippedNoLongerEligible == report.skippedNoLongerEligible
      && after.failures ==
        report.failures + [PurgeFailure(c.clip.clipId, w.clips[c.clip.clipId].filePath, false)]
  {
  }

  /** A purge that gets through marks the record, adds one entry, and logs it or says that it did not. */
  lemma EntryIsTold(w: World, faults: Faults, c: PurgeCandidate, reason: PurgeReason, context: RetentionContext,
                    report: PurgeReport) returns (entry: PurgeLogEntry)
    requires KeyedById(w) && IsPurgeable(w, c.clip.clipId) && !CannotPurge(w, faults, w.clips[c.clip.clipId])
    ensures entry.clipId == c.clip.clipId
    ensures var (v, after) := Purge(w, faults, c, reason, context, report);
      && !IsPurgeable(v, c.clip.clipId)
      && v.log == w.log + (if entry.clipId in faults.logging then [] else [entry])
      && after.purged == report.purged + [entry]
      && after.skippedNoLongerEligible == report.skippedNoLongerEligible
      && after.failures == report.failures +
        (if entry.clipId in faults.logging then [PurgeFailure(entry.clipId, entry.filePath, true)] else [])
  {
    var clip := w.clips[c.clip.clipId];
    var (released, outcome) := ReleaseFile(w, faults, clip).value;
    entry := EntryFor(clip, c.sizeBytes, reason, outcome, context);
    assert released.log == w.log;
  }

  lemma FailureTells(w: World, v: World, faults: Faults, report: PurgeReport, after: PurgeReport, p: Path, id: ClipId,
                     past: seq<PurgeLogEntry>)
    requires LogIsTold(past, w, faults, report) && v.clips == w.clips && v.log == w.log && IsPurgeable(w, id)
    requires after.purged == report.purged && after.failures == report.failures + [PurgeFailure(id, p, false)]
    ensures LogIsTold(past, v, faults, after)
    ensures forall other :: IsTold(w, v, report, after, other, {id})
  {
    FailureCounts(report.failures, PurgeFailure(id, p, false));
  }

  lemma EntryTells(w: World, v: World, faults: Faults, report: PurgeReport, after: PurgeReport, entry: PurgeLogEntry,
                   past: seq<PurgeLogEntry>)
    requires LogIsTold(past, w, faults, report)
    requires v.log == w.log + (if entry.clipId in faults.logging then [] else [entry])
    requires after.purged == report.purged + [entry]
    requires after.failures == report.failures +
      (if entry.clipId in faults.logging then [PurgeFailure(entry.clipId, entry.filePath, true)] else [])
    ensures LogIsTold(past, v, faults, after)
    ensures forall id :: Purgings(after.purged, id) == Purgings(report.purged, id) + if entry.clipId == id then 1 else 0
    ensures forall id :: Failings(after.failures, id) == Failings(report.failures, id)
  {
    EntryCounts(report.purged, entry, faults);
    if entry.clipId in faults.logging {
      FailureCounts(report.failures, PurgeFailure(entry.clipId, entry.filePath, true));
    } else {
      assert after.failures == report.failures;
      assert v.log == past + (Logged(report.purged, faults) + [entry]);
    }
  }

  lemma PurgeIsTold(w: World, faults: Faults, c: PurgeCandidate, reason: PurgeReason, context: RetentionContext,
                    report: PurgeReport, past: seq<PurgeLogEntry>)
    requires KeyedById(w) && LogIsTold(past, w, faults, report)
    ensures var (v, after) := Purge(w, faults, c, reason, context, report);
      && LogIsTold(past, v, faults, after)
      && (forall id :: IsTold(w, v, report, after, id, {c.clip.clipId}))
      && after.skippedNoLongerEligible ==
        report.skippedNoLongerEligible + (if IsPurgeable(w, c.clip.clipId) then 0 else 1)
  {
    var id := c.clip.clipId;
    var (v, after) := Purge(w, faults, c, reason, context, report);
    if !IsPurgeable(w, id) {
      assert v == w && after.purged == report.purged && after.failures == report.failures;
    } else if CannotPurge(w, faults, w.clips[id]) {
      FailureIsTold(w, faults, c, reason, context, report);
      FailureTells(w, v, faults, report, after, w.clips[id].filePath, id, past);
    } else {
      var entry := EntryIsTold(w, faults, c, reason, context, report);
      EntryTells(w, v, faults, report, after, entry, past);
      PurgeOnlyPurges(w, faults, c, reason, context, report);
    }
  }

  // ------------------------------------------------------------ one strategy

  function IdsOf(candidates: seq<PurgeCandidate>): set<ClipId> {
    set c | c in candidates :: c.clip.clipId
  }

  function NotPurgeable(w: World, selected: seq<PurgeCandidate>): nat {
    if selected == [] then 0
    else
      var n := |selected| - 1;
      NotPurgeable(w, selected[..n]) + if IsPurgeable(w, selected[n].clip.clipId) then 0 else 1
  }

  lemma IdsOfAll(selected: seq<PurgeCandidate>)
    requires selected != []
    ensures var n := |selected| - 1; IdsOf(selected) == IdsOf(selected[..n]) + {selected[n].clip.clipId}
  {
    assert selected == selected[..|selected| - 1] + [selected[|selected| - 1]];
  }

  lemma TellingGoesOn(w: World, v: World, x: World, report: PurgeReport, soFar: PurgeReport, after: PurgeReport,
                      front: set<ClipId>, last: ClipId, id: ClipId)
    requires last !in front && (IsPurgeable(v, last) <==> IsPurgeable(w, last))
    requires id != last ==> (IsPurgeable(x, id) <==> IsPurgeable(v, id))
    requires IsTold(w, v, report, soFar, id, front) && IsTold(v, x, soFar, after, id, {last})
    requires IsPurgeable(v, id) ==> IsPurgeable(w, id)
    ensures IsTold(w, x, report, after, id, front + {last})
  {
  }

  /** Whatever was selected, whatever fails: every selected clip is reported once. It is reported as purged
      when its record was marked, as failed when it could be purged and still can, and it is counted as
      skipped when it could not be purged any more; and nothing else is in the report. */
  lemma {:induction false} SelectionIsTold(w: World, faults: Faults, selected: seq<PurgeCandidate>,
                                           reason: PurgeReason, context: RetentionContext, report: PurgeReport,
                                           past: seq<PurgeLogEntry>)
    requires KeyedById(w) && DistinctIds(selected) && LogIsTold(past, w, faults, report)
    ensures var (v, after) := PurgeAll(w, faults, selected, reason, context, report);
      && LogIsTold(past, v, faults, after)
      && (forall id :: IsTold(w, v, report, after, id, IdsOf(selected)))
      && (forall id :: id !in IdsOf(selected) && id in w.clips ==> id in v.clips && v.clips[id] == w.clips[id])
      && after.skippedNoLongerEligible == report.skippedNoLongerEligible + NotPurgeable(w, selected)
  {
    if selected != [] {
      var n := |selected| - 1;
      var c, front := selected[n], selected[..n];
      SelectionIsTold(w, faults, front, reason, context, report, past);
      PurgeAllOnlyPurges(w, faults, front, reason, context, report);
      var (v, soFar) := PurgeAll(w, faults, front, reason, context, report);
      PurgeOnlyPurges(v, faults, c, reason, context, soFar);
      PurgeIsTold(v, faults, c, reason, context, soFar, past);
      var (x, after) := Purge(v, faults, c, reason, context, soFar);
      IdsOfAll(selected);
      forall id ensures IsTold(w, x, report, after, id, IdsOf(selected)) {
        TellingGoesOn(w, v, x, report, soFar, after, IdsOf(front), c.clip.clipId, id);
      }
    }
  }

  // -------------------------------------------------------------- one sweep

  /** The report against what the sweep did: an entry for each record that was marked, a failure for each
      clip that was taken in hand (it is not left) and is still purgeable, nobody twice, and nothing else. The
      log grew by the entries, in order, that the report does not also show as not logged. */
  ghost predicate TellsAll(w: World, v: World, faults: Faults, report: PurgeReport, left: set<ClipId>) {
    && LogIsTold(w.log, v, faults, report)
    && (forall id :: Purgings(report.purged, id) == if IsPurgeable(w, id) && !IsPurgeable(v, id) then 1 else 0)
    && (forall id :: Failings(report.failures, id) ==
                       if id !in left && IsPurgeable(w, id) && IsPurgeable(v, id) then 1 else 0)
    && report.skippedNoLongerEligible == 0
  }

  ghost predicate IsComplete(w: World, p: Progress, faults: Faults) {
    && KeyedById(p.world) && OnlyPurges(w, p.world) && DistinctIds(p.remaining)
    && (forall c :: c in p.remaining ==> IsPurgeable(p.world, c.clip.clipId))
    && TellsAll(w, p.world, faults, p.report, IdsOf(p.remaining))
  }

  lemma {:induction false} AllPurgeable(w: World, selected: seq<PurgeCandidate>)
    requires forall c :: c in selected ==> IsPurgeable(w, c.clip.clipId)
    ensures NotPurgeable(w, selected) == 0
  {
    if selected != [] {
      AllPurgeable(w, selected[..|selected| - 1]);
      assert selected[|selected| - 1] in selected;
    }
  }

  lemma RemainingIds(remaining: seq<PurgeCandidate>, selected: seq<PurgeCandidate>)
    ensures IdsOf(WithoutAll(remaining, selected)) == IdsOf(remaining) - IdsOf(selected)
  {
    WithoutAllElements(remaining, selected);
    forall id ensures id in IdsOf(WithoutAll(remaining, selected)) <==> id in IdsOf(remaining) && id !in IdsOf(selected)
    {
      if id in IdsOf(remaining) && id !in IdsOf(selected) {
        var c :| c in remaining && c.clip.clipId == id;
        assert c in WithoutAll(remaining, selected);
      }
    }
  }

  lemma SelectionTellsAll(w: World, p: Progress, v: World, faults: Faults, report: PurgeReport,
                          selected: set<ClipId>)
    requires IsComplete(w, p, faults) && OnlyPurges(p.world, v) && selected <= IdsOf(p.remaining)
    requires LogIsTold(w.log, v, faults, report) && report.skippedNoLongerEligible == 0
    requires forall id :: IsTold(p.world, v, p.report, report, id, selected)
    requires forall id :: id !in selected && id in p.world.clips ==> v.clips[id] == p.world.clips[id]
    ensures TellsAll(w, v, faults, report, IdsOf(p.remaining) - selected)
  {
    forall id
      ensures Purgings(report.purged, id) == if IsPurgeable(w, id) && !IsPurgeable(v, id) then 1 else 0
      ensures Failings(report.failures, id) ==
              if id !in IdsOf(p.remaining) - selected && IsPurgeable(w, id) && IsPurgeable(v, id) then 1 else 0
    {
      assert IsTold(p.world, v, p.report, report, id, selected);
    }
  }

  lemma SelectionIsComplete(w: World, p: Progress, faults: Faults, selected: seq<PurgeCandidate>, reason: PurgeReason,
                            context: RetentionContext)
    requires IsComplete(w, p, faults) && DistinctIds(selected) && forall c :: c in selected ==> c in p.remaining
    ensures var (v, report) := PurgeAll(p.world, faults, selected, reason, context, p.report);
      TellsAll(w, v, faults, report, IdsOf(p.remaining) - IdsOf(selected))
  {
    AllPurgeable(p.world, selected);
    SelectionIsTold(p.world, faults, selected, reason, context, p.report, w.log);
    PurgeAllOnlyPurges(p.world, faults, selected, reason, context, p.report);
    var (v, report) := PurgeAll(p.world, faults, selected, reason, context, p.report);
    SelectionTellsAll(w, p, v, faults, report, IdsOf(selected));
  }

  lemma RemainingStay(w: World, p: Progress, faults: Faults, selected: seq<PurgeCandidate>, reason: PurgeReason,
                      context: RetentionContext)
    requires IsComplete(w, p, faults) && DistinctIds(selected)
    ensures var v := PurgeAll(p.world, faults, selected, reason, context, p.report).0;
      forall c :: c in WithoutAll(p.remaining, selected) ==> IsPurgeable(v, c.clip.clipId)
  {
    WithoutAllElements(p.remaining, selected);
    SelectionIsTold(p.world, faults, selected, reason, context, p.report, w.log);
  }

  lemma StrategyIsComplete(w: World, p: Progress, volume: Volume, faults: Faults, strategy: Strategy, now: Time)
    requires volume.capacityBytes > 0 && IsComplete(w, p, faults)
    ensures IsComplete(w, ApplyStrategy(p, volume, faults, strategy, now).0, faults)
  {
    var context := ContextOf(p.world, volume, now);
    var chosen := Select(strategy, p.remaining, context);
    if chosen.Success? {
      SelectedAreCandidates(strategy, p.remaining, context);
      SelectedAreDistinct(strategy, p.remaining, context);
      SelectionIsComplete(w, p, faults, chosen.value, strategy.Reason(), context);
      RemainingStay(w, p, faults, chosen.value, strategy.Reason(), context);
      PurgeAllOnlyPurges(p.world, faults, chosen.value, strategy.Reason(), context, p.report);
      WithoutAllIsDistinct(p.remaining, chosen.value);
      RemainingIds(p.remaining, chosen.value);
    }
  }

  lemma {:induction false} StrategiesAreComplete(w: World, p: Progress, volume: Volume, faults: Faults,
                                                 strategies: seq<Strategy>, clock: nat -> Time)
    requires volume.capacityBytes > 0 && IsComplete(w, p, faults)
    ensures IsComplete(w, ApplyAll(p, volume, faults, strategies, clock).0, faults)
  {
    if strategies != [] {
      var n := |strategies| - 1;
      StrategiesAreComplete(w, p, volume, faults, strategies[..n], clock);
      var (q, error) := ApplyAll(p, volume, faults, strategies[..n], clock);
      if error.None? {
        StrategyIsComplete(w, q, volume, faults, strategies[n], clock(n));
      }
    }
  }

  lemma SweepBeginsComplete(w: World, volume: Volume, faults: Faults, listing: seq<MediaClip>, startedAt: Time)
    requires volume.capacityBytes > 0 && KeyedById(w) && IsListing(w, listing)
    ensures IsComplete(w, Begin(w, volume, faults, listing, startedAt), faults)
  {
    var candidates := Candidates(w, faults, listing);
    CandidatesAreListed(w, faults, listing);
    forall c | c in candidates ensures IsPurgeable(w, c.clip.clipId) {
      var i :| 0 <= i < |candidates| && candidates[i] == c;
      assert listing[i] in listing;
    }
    forall id | IsPurgeable(w, id) ensures id in IdsOf(candidates) {
      assert w.clips[id] in listing;
      var i :| 0 <= i < |listing| && listing[i] == w.clips[id];
      assert candidates[i] in candidates;
    }
  }

  /** The report is complete, for any strategies and any failures, and up to an alert: every clip the sweep
      took in hand is in it exactly once, as purged when its record was marked and as failed otherwise, no
      clip is skipped, and the log grew by the entries that could be logged, in order. */
  lemma ReportIsComplete(w: World, volume: Volume, faults: Faults, strategies: seq<Strategy>, listing: seq<MediaClip>,
                         startedAt: Time, clock: nat -> Time)
    requires volume.capacityBytes > 0 && KeyedById(w) && IsListing(w, listing)
    ensures
      var p := ApplyAll(Begin(w, volume, faults, listing, startedAt), volume, faults, strategies, clock).0;
      var (v, r) := Sweep(w, volume, faults, strategies, listing, startedAt, clock);
      && TellsAll(w, v, faults, p.report, IdsOf(p.remaining))
      && (r.Success? ==> TellsAll(w, v, faults, r.value, IdsOf(p.remaining)))
  {
    SweepBeginsComplete(w, volume, faults, listing, startedAt);
    StrategiesAreComplete(w, Begin(w, volume, faults, listing, startedAt), volume, faults, strategies, clock);
  }
}
