/** The purge use case as the service runs it, on the repository, the file storage and the log it
    changes in place. */
module PurgeMedia {
  import opened Outcomes
  import opened Sequences
  import opened Retention
  import opened PurgeSweep
  import opened PurgeProtocol
  import opened PurgeCrash

  class ClipRepository {
    var clips: map<ClipId, MediaClip>

    constructor ()
      ensures clips == map[]
    {
      clips := map[];
    }

    method FindById(id: ClipId) returns (r: Option<MediaClip>)
      ensures r == if id in clips then Some(clips[id]) else None
    {
      r := if id in clips then Some(clips[id]) else None;
    }

    /** The rows with the property, each once, in any order. */
    method FindWhere(keep: MediaClip -> bool) returns (rows: seq<MediaClip>)
      requires forall id :: id in clips ==> clips[id].clipId == id
      ensures forall clip :: clip in rows <==> clip.clipId in clips && clips[clip.clipId] == clip && keep(clip)
      ensures forall i, j :: 0 <= i < j < |rows| ==> rows[i].clipId != rows[j].clipId
    {
      rows := [];
      var left := clips.Keys;
      while left != {}
        invariant left <= clips.Keys
        invariant forall clip :: clip in rows <==>
          clip.clipId in clips && clip.clipId !in left && clips[clip.clipId] == clip && keep(clip)
        invariant forall i, j :: 0 <= i < j < |rows| ==> rows[i].clipId != rows[j].clipId
        decreases left
      {
        var id :| id in left;
        left := left - {id};
        if keep(clips[id]) {
          rows := rows + [clips[id]];
        }
      }
    }

    method FindByEventId(eventId: string) returns (rows: seq<MediaClip>)
      requires forall id :: id in clips ==> clips[id].clipId == id
      ensures forall clip :: clip in rows <==>
        clip.clipId in clips && clips[clip.clipId] == clip && clip.eventId == eventId
    {
      rows := FindWhere((clip: MediaClip) => clip.eventId == eventId);
    }

    method FindPurgeCandidates() returns (rows: seq<MediaClip>)
      requires forall id :: id in clips ==> clips[id].clipId == id
      ensures forall clip :: clip in rows <==>
        clip.clipId in clips && clips[clip.clipId] == clip && IsEligibleForPurge(clip)
      ensures forall i, j :: 0 <= i < j < |rows| ==> rows[i].clipId != rows[j].clipId
    {
      rows := FindWhere(IsEligibleForPurge);
    }

    method Update(clip: MediaClip, fails: bool) returns (updated: bool)
      modifies this
      ensures updated == !fails
      ensures clips == if updated then old(clips)[clip.clipId := clip] else old(clips)
    {
      if !fails {
        clips := clips[clip.clipId := clip];
      }
      return !fails;
    }
  }

  class MediaVolume {
    const volume: Volume
    var files: map<Path, nat>

    constructor (volume: Volume)
      ensures this.volume == volume && files == map[]
    {
      this.volume := volume;
      files := map[];
    }

    predicate Exists(path: Path)
      reads this
    {
      path in files
    }

    method Remove(path: Path, fails: bool) returns (removed: bool)
      modifies this`files
      ensures removed == !fails
      ensures files == if removed then old(files) - {path} else old(files)
    {
      if !fails {
        files := files - {path};
      }
      return !fails;
    }

    method CurrentUsage() returns (usage: DiskUsage)
      requires volume.capacityBytes > 0
      ensures usage == UsageFor(volume.bytesUsedByOthers + SumSizes(files), volume.capacityBytes)
    {
      var used := volume.bytesUsedByOthers;
      var left := files;
      while left != map[]
        invariant used + SumSizes(left) == volume.bytesUsedByOthers + SumSizes(files)
        decreases |left|
      {
        var path :| path in left;
        SumSizesTakes(left, path);
        used := used + left[path];
        left := left - {path};
      }
      usage := UsageFor(used, volume.capacityBytes);
    }
  }

  class PurgeLog {
    var entries: seq<PurgeLogEntry>

    constructor ()
      ensures entries == []
    {
      entries := [];
    }

    method Record(entry: PurgeLogEntry, fails: bool) returns (recorded: bool)
      modifies this
      ensures recorded == !fails
      ensures entries == if recorded then old(entries) + [entry] else old(entries)
    {
      if !fails {
        entries := entries + [entry];
      }
      return !fails;
    }
  }

  class PurgeMediaUseCase {
    const repository: ClipRepository
    const fileStorage: MediaVolume
    const purgeLog: PurgeLog
    const strategies: seq<Strategy>
    /** The durable states the purge has gone through, and how far the clip in hand had come in each. */
    ghost var trace: seq<System>

    ghost function State(): World
      reads this, repository, fileStorage, purgeLog
    {
      World(repository.clips, fileStorage.files, purgeLog.entries)
    }

    /** What happened up to the end of the trace is a run of the protocol; others may have moved on since. */
    ghost predicate HasHistory()
      reads this
    {
      fileStorage.volume.capacityBytes > 0 && IsRun(trace) && KeyedById(trace[|trace| - 1].world)
    }

    /** What happened so far is a run of the protocol, and it has led here. */
    ghost predicate Valid()
      reads this, repository, fileStorage, purgeLog
    {
      HasHistory() && trace[|trace| - 1] == System(State(), Idle)
    }

    constructor (repository: ClipRepository, fileStorage: MediaVolume, purgeLog: PurgeLog, strategies: seq<Strategy>)
      requires fileStorage.volume.capacityBytes > 0
      requires forall id :: id in repository.clips ==> repository.clips[id].clipId == id
      ensures Valid() && this.repository == repository && this.fileStorage == fileStorage && this.purgeLog == purgeLog
      ensures this.strategies == strategies && trace == [System(State(), Idle)]
    {
      this.repository, this.fileStorage, this.purgeLog := repository, fileStorage, purgeLog;
      this.strategies := strategies;
      trace := [System(World(repository.clips, fileStorage.files, purgeLog.entries), Idle)];
    }

    /** Between sweeps others write files, save records and lock clips: their steps lead from the end of the
        trace to the present state, and are added to it. */
    ghost method CatchUp(steps: seq<System>)
      requires HasHistory() && steps != [] && IsRun([trace[|trace| - 1]] + steps)
      requires steps[|steps| - 1] == System(State(), Idle)
      modifies this`trace
      ensures Valid() && trace == old(trace) + steps
    {
      EveryRunKeepsKeys([trace[|trace| - 1]] + steps, |steps|);
      RunExtends(trace, steps);
      trace := trace + steps;
    }

    method LoadCandidates(faults: Faults) returns (candidates: seq<PurgeCandidate>, ghost listing: seq<MediaClip>)
      requires KeyedById(State())
      ensures IsListing(State(), listing) && candidates == Candidates(State(), faults, listing)
      ensures forall c :: c in candidates <==>
        && IsPurgeable(State(), c.clip.clipId) && repository.clips[c.clip.clipId] == c.clip
        && c.sizeBytes == PurgeSweep.MeasuredSize(State(), faults, c.clip)
    {
      var clips := repository.FindPurgeCandidates();
      listing := clips;
      candidates := [];
      for i := 0 to |clips|
        invariant candidates == Candidates(State(), faults, clips[..i])
      {
        assert clips[..i + 1][..i] == clips[..i];
        var size := MeasuredSize(clips[i], faults);
        candidates := candidates + [PurgeCandidate(clips[i], size)];
      }
      assert clips[..|clips|] == clips;
      ListedAreCandidates(State(), faults, clips);
    }

    method MeasuredSize(clip: MediaClip, faults: Faults) returns (size: nat)
      ensures size == PurgeSweep.MeasuredSize(State(), faults, clip)
    {
      if !fileStorage.Exists(clip.filePath) || clip.clipId in faults.sizing {
        return 0;
      }
      return fileStorage.files[clip.filePath];
    }

    method IsFileSharedWithRetainedClip(clip: MediaClip) returns (shared: bool)
      requires KeyedById(State())
      ensures shared == IsSharedWithRetainedClip(State(), clip)
    {
      var siblings := repository.FindByEventId(clip.eventId);
      for i := 0 to |siblings|
        invariant forall k :: 0 <= k < i ==>
          !(siblings[k].clipId != clip.clipId && siblings[k].isRetained && siblings[k].filePath == clip.filePath)
      {
        var sibling := siblings[i];
        if sibling.clipId != clip.clipId && sibling.isRetained && sibling.filePath == clip.filePath {
          assert sibling in siblings;
          return true;
        }
      }
      assert forall id :: id in repository.clips && repository.clips[id].eventId == clip.eventId ==>
        repository.clips[id] in siblings;
      return false;
    }

    /** Deletes the file of a clip unless it is gone or another retained clip needs it; None when a call fails. */
    method ReleaseFile(clip: MediaClip, faults: Faults) returns (outcome: Option<FileOutcome>)
      requires KeyedById(State())
      modifies fileStorage`files
      ensures match PurgeSweep.ReleaseFile(old(State()), faults, clip)
              case None => outcome == None && State() == old(State())
              case Some((released, o)) => outcome == Some(o) && State() == released
    {
      if !fileStorage.Exists(clip.filePath) {
        return Some(AlreadyMissing);
      }
      if clip.clipId in faults.lookup {
        return None;
      }
      var shared := IsFileSharedWithRetainedClip(clip);
      if shared {
        return Some(KeptForOtherClip);
      }
      var removed := fileStorage.Remove(clip.filePath, clip.clipId in faults.removal);
      if !removed {
        return None;
      }
      return Some(Deleted);
    }

    /** One clip: read again, release its file, mark its record, append to the log. */
    method Purge(candidate: PurgeCandidate, reason: PurgeReason, context: RetentionContext, faults: Faults,
                 report: PurgeReport)
      returns (after: PurgeReport)
      requires Valid()
      modifies this`trace, repository, fileStorage`files, purgeLog
      ensures Valid()
      ensures (State(), after) == PurgeSweep.Purge(old(State()), faults, candidate, reason, context, report)
      ensures trace == old(trace) + PurgeSteps(old(State()), faults, candidate, reason, context)
    {
      PurgeFollowsProtocol(State(), faults, candidate, reason, context, report);
      RunExtends(trace, PurgeSteps(State(), faults, candidate, reason, context));
      PurgeOnlyPurges(State(), faults, candidate, reason, context, report);
      after := TakeSteps(candidate, reason, context, faults, report);
    }

    method TakeSteps(candidate: PurgeCandidate, reason: PurgeReason, context: RetentionContext, faults: Faults,
                     report: PurgeReport)
      returns (after: PurgeReport)
      requires KeyedById(State())
      modifies this`trace, repository, fileStorage`files, purgeLog
      ensures (State(), after) == PurgeSweep.Purge(old(State()), faults, candidate, reason, context, report)
      ensures trace == old(trace) + PurgeSteps(old(State()), faults, candidate, reason, context)
    {
      var current := repository.FindById(candidate.clip.clipId);
      if current.None? || !IsEligibleForPurge(current.value) {
        return report.(skippedNoLongerEligible := report.skippedNoLongerEligible + 1);
      }
      var clip := current.value;
      var outcome := ReleaseFile(clip, faults);
      if outcome.None? {
        return report.(failures := report.failures + [PurgeFailure(clip.clipId, clip.filePath, false)]);
      }
      trace := trace + [System(State(), Released(clip))];
      var purged := clip.(isRetained := false);
      var updated := repository.Update(purged, clip.clipId in faults.update);
      if !updated {
        trace := trace + [System(State(), Idle)];
        return report.(failures := report.failures + [PurgeFailure(clip.clipId, clip.filePath, false)]);
      }
      trace := trace + [System(State(), Marked(clip))];
      var bytesFreed := if outcome.value == Deleted then candidate.sizeBytes else 0;
      var entry := PurgeLogEntry(purged.clipId, purged.eventId, purged.filePath, reason, outcome.value, bytesFreed,
                                 context.diskUsage.UsedRatio(), context.now);
      after := report.(purged := report.purged + [entry]);
      var recorded := purgeLog.Record(entry, clip.clipId in faults.logging);
      if !recorded {
        after := after.(failures := after.failures + [PurgeFailure(entry.clipId, entry.filePath, true)]);
      }
      trace := trace + [System(State(), Idle)];
    }

    method SelectWith(strategy: Strategy, remaining: seq<PurgeCandidate>, context: RetentionContext)
      returns (r: Result<seq<PurgeCandidate>, SweepError>)
      ensures r == Select(strategy, remaining, context)
    {
      match strategy
      case Lgpd(policy) =>
        var lgpd := new LgpdRetentionStrategy(policy);
        var expired := lgpd.SelectClipsToPurge(remaining, context);
        return Success(expired);
      case DiskQuotaFifo(policy) =>
        var quota := new DiskQuotaFifoStrategy(policy);
        r := quota.SelectClipsToPurge(remaining, context);
    }

    method RemoveCandidate(candidates: seq<PurgeCandidate>, id: ClipId) returns (kept: seq<PurgeCandidate>)
      ensures kept == Without(candidates, id)
    {
      kept := [];
      for i := 0 to |candidates|
        invariant kept == Without(candidates[..i], id)
      {
        FilterAppend(candidates[..i], [candidates[i]], (c: PurgeCandidate) => c.clip.clipId != id);
        assert candidates[..i + 1] == candidates[..i] + [candidates[i]];
        if candidates[i].clip.clipId != id {
          kept := kept + [candidates[i]];
        }
      }
      assert candidates[..|candidates|] == candidates;
    }

    method PurgeSelected(selected: seq<PurgeCandidate>, reason: PurgeReason, context: RetentionContext, faults: Faults,
                         remaining: seq<PurgeCandidate>, report: PurgeReport)
      returns (left: seq<PurgeCandidate>, after: PurgeReport)
      requires Valid()
      modifies this`trace, repository, fileStorage`files, purgeLog
      ensures Valid()
      ensures (State(), after) == PurgeAll(old(State()), faults, selected, reason, context, report)
      ensures left == WithoutAll(remaining, selected)
      ensures trace == old(trace) + PurgeAllSteps(old(State()), faults, selected, reason, context, report)
    {
      left, after := remaining, report;
      ghost var begin, past := State(), trace;
      for i := 0 to |selected|
        invariant Valid()
        invariant (State(), after) == PurgeAll(begin, faults, selected[..i], reason, context, report)
        invariant left == WithoutAll(remaining, selected[..i])
        invariant trace == past + PurgeAllSteps(begin, faults, selected[..i], reason, context, report)
      {
        ghost var w, steps := State(), PurgeAllSteps(begin, faults, selected[..i], reason, context, report);
        NextPurge(begin, faults, selected, i, reason, context, report, w, after, past, steps, remaining);
        after := Purge(selected[i], reason, context, faults, after);
        left := RemoveCandidate(left, selected[i].clip.clipId);
      }
      assert selected[..|selected|] == selected;
    }

    /** One strategy, on the disk as it is now. */
    method ApplyStrategy(strategy: Strategy, remaining: seq<PurgeCandidate>, report: PurgeReport, faults: Faults,
                         now: Time)
      returns (left: seq<PurgeCandidate>, after: PurgeReport, error: Option<SweepError>)
      requires Valid()
      modifies this`trace, repository, fileStorage`files, purgeLog
      ensures Valid() && old(trace) <= trace
      ensures (Progress(State(), left, after), error) ==
        PurgeSweep.ApplyStrategy(Progress(old(State()), remaining, report), fileStorage.volume, faults, strategy, now)
    {
      var usage := fileStorage.CurrentUsage();
      var context := RetentionContext(now, usage);
      ghost var p := Progress(State(), remaining, report);
      assert context == ContextOf(p.world, fileStorage.volume, now);
      var selected := SelectWith(strategy, remaining, context);
      if selected.Failure? {
        return remaining, report, Some(selected.error);
      }
      left, after := PurgeSelected(selected.value, strategy.Reason(), context, faults, remaining, report);
      error := None;
      StrategyPurges(p, fileStorage.volume, faults, strategy, now, State(), after);
    }

    method ApplyStrategies(candidates: seq<PurgeCandidate>, report: PurgeReport, faults: Faults, clock: nat -> Time)
      returns (left: seq<PurgeCandidate>, after: PurgeReport, error: Option<SweepError>)
      requires Valid()
      modifies this`trace, repository, fileStorage`files, purgeLog
      ensures Valid() && old(trace) <= trace
      ensures (Progress(State(), left, after), error) ==
        ApplyAll(Progress(old(State()), candidates, report), fileStorage.volume, faults, strategies, clock)
    {
      left, after, error := candidates, report, None;
      ghost var begin := Progress(State(), candidates, report);
      assert strategies[..0] == [];
      for k := 0 to |strategies|
        invariant Valid() && old(trace) <= trace
        invariant error == None
        invariant (Progress(State(), left, after), None) ==
          ApplyAll(begin, fileStorage.volume, faults, strategies[..k], clock)
      {
        NextStrategy(begin, Progress(State(), left, after), fileStorage.volume, faults, strategies, k, clock);
        left, after, error := ApplyStrategy(strategies[k], left, after, faults, clock(k));
        if error.Some? {
          AlertEndsSweep(begin, fileStorage.volume, faults, strategies, k + 1, clock);
          return;
        }
      }
      assert strategies[..|strategies|] == strategies;
    }

    /** One sweep: the candidates once, then the strategies in the given order; an alert ends it. */
    method Execute(faults: Faults, startedAt: Time, clock: nat -> Time)
      returns (r: Result<PurgeReport, SweepError>, ghost listing: seq<MediaClip>)
      requires Valid()
      modifies this`trace, repository, fileStorage`files, purgeLog
      ensures Valid() && old(trace) <= trace
      ensures IsListing(old(State()), listing)
      ensures (State(), r) == Sweep(old(State()), fileStorage.volume, faults, strategies, listing, startedAt, clock)
    {
      var usageBefore := fileStorage.CurrentUsage();
      var candidates;
      candidates, listing := LoadCandidates(faults);
      var report := PurgeReport(startedAt, usageBefore, usageBefore, [], [], 0);
      r := Report(candidates, listing, report, faults, startedAt, clock);
    }

    method Report(candidates: seq<PurgeCandidate>, ghost listing: seq<MediaClip>, report: PurgeReport, faults: Faults,
                  ghost startedAt: Time, clock: nat -> Time)
      returns (r: Result<PurgeReport, SweepError>)
      requires Valid()
      requires Progress(State(), candidates, report) == Begin(State(), fileStorage.volume, faults, listing, startedAt)
      modifies this`trace, repository, fileStorage`files, purgeLog
      ensures Valid() && old(trace) <= trace
      ensures (State(), r) == Sweep(old(State()), fileStorage.volume, faults, strategies, listing, startedAt, clock)
    {
      ghost var before := State();
      var left, after, error := ApplyStrategies(candidates, report, faults, clock);
      ghost var p := Progress(State(), left, after);
      SweepEnds(before, fileStorage.volume, faults, strategies, listing, startedAt, clock, p, error);
      r := Finish(left, after, error);
    }

    method Finish(ghost left: seq<PurgeCandidate>, report: PurgeReport, error: Option<SweepError>)
      returns (r: Result<PurgeReport, SweepError>)
      requires fileStorage.volume.capacityBytes > 0
      ensures (State(), r) == Conclude(Progress(State(), left, report), fileStorage.volume, error)
    {
      if error.Some? {
        return Failure(error.value);
      }
      var usageAfter := fileStorage.CurrentUsage();
      return Success(report.(diskUsageAfter := usageAfter));
    }
  }

  lemma {:induction false} CandidatesOf(w: World, faults: Faults, listing: seq<MediaClip>)
    ensures forall c :: c in Candidates(w, faults, listing) <==>
      c.clip in listing && c.sizeBytes == MeasuredSize(w, faults, c.clip)
  {
    if listing != [] {
      var n := |listing| - 1;
      CandidatesOf(w, faults, listing[..n]);
      assert listing == listing[..n] + [listing[n]];
    }
  }

  lemma ListedAreCandidates(w: World, faults: Faults, listing: seq<MediaClip>)
    requires IsListing(w, listing)
    ensures forall c :: c in Candidates(w, faults, listing) <==>
      && IsPurgeable(w, c.clip.clipId) && w.clips[c.clip.clipId] == c.clip
      && c.sizeBytes == MeasuredSize(w, faults, c.clip)
  {
    CandidatesOf(w, faults, listing);
  }

  lemma SweepEnds(w: World, volume: Volume, faults: Faults, strategies: seq<Strategy>, listing: seq<MediaClip>,
                  startedAt: Time, clock: nat -> Time, p: Progress, error: Option<SweepError>)
    requires volume.capacityBytes > 0
    requires ApplyAll(Begin(w, volume, faults, listing, startedAt), volume, faults, strategies, clock) == (p, error)
    ensures Sweep(w, volume, faults, strategies, listing, startedAt, clock) == Conclude(p, volume, error)
  {
  }

  lemma NextPurge(w: World, faults: Faults, selected: seq<PurgeCandidate>, i: nat, reason: PurgeReason,
                  context: RetentionContext, report: PurgeReport, v: World, soFar: PurgeReport,
                  past: seq<System>, steps: seq<System>, remaining: seq<PurgeCandidate>)
    requires i < |selected| && PurgeAll(w, faults, selected[..i], reason, context, report) == (v, soFar)
    requires PurgeAllSteps(w, faults, selected[..i], reason, context, report) == steps
    ensures PurgeAll(w, faults, selected[..i + 1], reason, context, report)
      == PurgeSweep.Purge(v, faults, selected[i], reason, context, soFar)
    ensures (past + steps) + PurgeSteps(v, faults, selected[i], reason, context)
      == past + PurgeAllSteps(w, faults, selected[..i + 1], reason, context, report)
    ensures WithoutAll(remaining, selected[..i + 1]) ==
      Without(WithoutAll(remaining, selected[..i]), selected[i].clip.clipId)
  {
    assert selected[..i + 1][..i] == selected[..i];
  }

  lemma StrategyPurges(p: Progress, volume: Volume, faults: Faults, strategy: Strategy, now: Time, v: World,
                       report: PurgeReport)
    requires volume.capacityBytes > 0 && Select(strategy, p.remaining, ContextOf(p.world, volume, now)).Success?
    requires
      var context := ContextOf(p.world, volume, now);
      var selected := Select(strategy, p.remaining, context).value;
      PurgeAll(p.world, faults, selected, strategy.Reason(), context, p.report) == (v, report)
    ensures
      var selected := Select(strategy, p.remaining, ContextOf(p.world, volume, now)).value;
      PurgeSweep.ApplyStrategy(p, volume, faults, strategy, now)
        == (Progress(v, WithoutAll(p.remaining, selected), report), None)
  {
  }

  lemma NextStrategy(p: Progress, q: Progress, volume: Volume, faults: Faults, strategies: seq<Strategy>, k: nat,
                     clock: nat -> Time)
    requires volume.capacityBytes > 0 && k < |strategies|
    requires ApplyAll(p, volume, faults, strategies[..k], clock) == (q, None)
    ensures ApplyAll(p, volume, faults, strategies[..k + 1], clock) ==
      PurgeSweep.ApplyStrategy(q, volume, faults, strategies[k], clock(k))
  {
    assert strategies[..k + 1][..k] == strategies[..k];
  }

  lemma {:induction false} AlertEndsSweep(p: Progress, volume: Volume, faults: Faults, strategies: seq<Strategy>,
                                          k: nat, clock: nat -> Time)
    requires volume.capacityBytes > 0 && k <= |strategies|
    requires ApplyAll(p, volume, faults, strategies[..k], clock).1.Some?
    ensures ApplyAll(p, volume, faults, strategies, clock) == ApplyAll(p, volume, faults, strategies[..k], clock)
  {
    if k < |strategies| {
      var n := |strategies| - 1;
      assert strategies[..n][..k] == strategies[..k];
      AlertEndsSweep(p, volume, faults, strategies[..n], k, clock);
    } else {
      assert strategies[..k] == strategies;
    }
  }
}
