/** One purge sweep over the clip records, the media files and the purge log: what it does to them,
    which calls may fail on the way, and the durable steps it takes. */
module PurgeSweep {
  import opened Outcomes
  import opened Sequences
  import opened Retention

  datatype FileOutcome = Deleted | AlreadyMissing | KeptForOtherClip

  datatype PurgeLogEntry = PurgeLogEntry(
    clipId: ClipId,
    eventId: string,
    filePath: Path,
    reason: PurgeReason,
    fileOutcome: FileOutcome,
    bytesFreed: nat,
    diskUsedRatio: real,
    purgedAt: Time)

  datatype PurgeFailure = PurgeFailure(clipId: ClipId, filePath: Path, isPurgedButNotLogged: bool)

  datatype PurgeReport = PurgeReport(
    startedAt: Time,
    diskUsageBefore: DiskUsage,
    diskUsageAfter: DiskUsage,
    purged: seq<PurgeLogEntry>,
    failures: seq<PurgeFailure>,
    skippedNoLongerEligible: nat)

  /** Everything that survives a crash: records, file sizes, log. */
  datatype World = World(clips: map<ClipId, MediaClip>, files: map<Path, nat>, log: seq<PurgeLogEntry>)

  /** The volume the files lie on, and what others use of it. */
  datatype Volume = Volume(capacityBytes: nat, bytesUsedByOthers: nat)

  /** The clips for which a call of this sweep fails: looking up its siblings, removing its file,
      updating its record, logging it, reading its file's size. */
  datatype Faults = Faults(
    lookup: set<ClipId>,
    removal: set<ClipId>,
    update: set<ClipId>,
    logging: set<ClipId>,
    sizing: set<ClipId>)

  const NO_FAULTS := Faults({}, {}, {}, {}, {})

  // ------------------------------------------------------------ disk usage

  ghost function SumSizes(files: map<Path, nat>): nat
    decreases |files|
  {
    if files == map[] then 0
    else
      var p :| p in files;
      files[p] + SumSizes(files - {p})
  }

  lemma {:induction false} SumSizesTakes(files: map<Path, nat>, p: Path)
    requires p in files
    ensures SumSizes(files) == files[p] + SumSizes(files - {p})
    decreases |files|
  {
    var q :| q in files && SumSizes(files) == files[q] + SumSizes(files - {q});
    if p != q {
      SumSizesTakes(files - {q}, p);
      SumSizesTakes(files - {p}, q);
      assert files - {q} - {p} == files - {p} - {q};
    }
  }

  function UsageFor(used: nat, capacity: nat): DiskUsage
    requires capacity > 0
  {
    Usage(used, if used < capacity then capacity - used else 0)
  }

  ghost function UsageOf(w: World, volume: Volume): DiskUsage
    requires volume.capacityBytes > 0
  {
    UsageFor(volume.bytesUsedByOthers + SumSizes(w.files), volume.capacityBytes)
  }

  // -------------------------------------------------------------- one clip

  predicate IsSharedWithRetainedClip(w: World, clip: MediaClip) {
    exists id :: id in w.clips
      && w.clips[id].eventId == clip.eventId
      && w.clips[id].clipId != clip.clipId
      && w.clips[id].isRetained
      && w.clips[id].filePath == clip.filePath
  }

  function ReleaseFile(w: World, faults: Faults, clip: MediaClip): Option<(World, FileOutcome)> {
    if clip.filePath !in w.files then Some((w, AlreadyMissing))
    else if clip.clipId in faults.lookup then None
    else if IsSharedWithRetainedClip(w, clip) then Some((w, KeptForOtherClip))
    else if clip.clipId in faults.removal then None
    else Some((w.(files := w.files - {clip.filePath}), Deleted))
  }

  function MarkPurged(w: World, clip: MediaClip): World {
    w.(clips := w.clips[clip.clipId := clip.(isRetained := false)])
  }

  function EntryFor(clip: MediaClip, sizeBytes: nat, reason: PurgeReason, outcome: FileOutcome,
                    context: RetentionContext)
    : PurgeLogEntry
  {
    PurgeLogEntry(clip.clipId, clip.eventId, clip.filePath, reason, outcome,
                  if outcome == Deleted then sizeBytes else 0, context.diskUsage.UsedRatio(), context.now)
  }

  function Append(w: World, entry: PurgeLogEntry): World {
    w.(log := w.log + [entry])
  }

  predicate IsPurgeable(w: World, id: ClipId) {
    id in w.clips && IsEligibleForPurge(w.clips[id])
  }

  function Purge(w: World, faults: Faults, candidate: PurgeCandidate, reason: PurgeReason, context: RetentionContext,
                 report: PurgeReport): (World, PurgeReport)
  {
    var id := candidate.clip.clipId;
    if !IsPurgeable(w, id) then (w, report.(skippedNoLongerEligible := report.skippedNoLongerEligible + 1))
    else
      var clip := w.clips[id];
      var failed := report.(failures := report.failures + [PurgeFailure(clip.clipId, clip.filePath, false)]);
      match ReleaseFile(w, faults, clip)
      case None => (w, failed)
      case Some((released, outcome)) =>
        if clip.clipId in faults.update then (released, failed)
        else
          var marked := MarkPurged(released, clip);
          var entry := EntryFor(clip, candidate.sizeBytes, reason, outcome, context);
          var purged := report.(purged := report.purged + [entry]);
          if clip.clipId in faults.logging
          then (marked, purged.(failures := purged.failures + [PurgeFailure(clip.clipId, clip.filePath, true)]))
          else (Append(marked, entry), purged)
  }

  // ------------------------------------------------------------- one sweep

  function PurgeAll(w: World, faults: Faults, selected: seq<PurgeCandidate>, reason: PurgeReason,
                    context: RetentionContext, report: PurgeReport): (World, PurgeReport)
  {
    if selected == [] then (w, report)
    else
      var n := |selected| - 1;
      var (before, soFar) := PurgeAll(w, faults, selected[..n], reason, context, report);
      Purge(before, faults, selected[n], reason, context, soFar)
  }

  function Without(candidates: seq<PurgeCandidate>, id: ClipId): seq<PurgeCandidate> {
    Filter(candidates, (c: PurgeCandidate) => c.clip.clipId != id)
  }

  function WithoutAll(candidates: seq<PurgeCandidate>, selected: seq<PurgeCandidate>): seq<PurgeCandidate> {
    if selected == [] then candidates
    else Without(WithoutAll(candidates, selected[..|selected| - 1]), selected[|selected| - 1].clip.clipId)
  }

  /** The records that may be purged, each once, in whatever order the repository lists them. */
  ghost predicate IsListing(w: World, listing: seq<MediaClip>) {
    && (forall clip :: clip in listing <==> IsPurgeable(w, clip.clipId) && w.clips[clip.clipId] == clip)
    && (forall i, j :: 0 <= i < j < |listing| ==> listing[i].clipId != listing[j].clipId)
  }

  function MeasuredSize(w: World, faults: Faults, clip: MediaClip): nat {
    if clip.filePath in w.files && clip.clipId !in faults.sizing then w.files[clip.filePath] else 0
  }

  function Candidates(w: World, faults: Faults, listing: seq<MediaClip>): seq<PurgeCandidate> {
    if listing == [] then []
    else
      var n := |listing| - 1;
      Candidates(w, faults, listing[..n]) + [PurgeCandidate(listing[n], MeasuredSize(w, faults, listing[n]))]
  }

  /** Where a sweep stands between two strategies. */
  datatype Progress = Progress(world: World, remaining: seq<PurgeCandidate>, report: PurgeReport)

  ghost function ContextOf(w: World, volume: Volume, now: Time): RetentionContext
    requires volume.capacityBytes > 0
  {
    RetentionContext(now, UsageOf(w, volume))
  }

  /** One strategy. The disk is measured anew; an alert leaves everything as it is. */
  ghost function ApplyStrategy(p: Progress, volume: Volume, faults: Faults, strategy: Strategy, now: Time)
    : (Progress, Option<SweepError>)
    requires volume.capacityBytes > 0
  {
    var context := ContextOf(p.world, volume, now);
    match Select(strategy, p.remaining, context)
    case Failure(error) => (p, Some(error))
    case Success(selected) =>
      var (w, report) := PurgeAll(p.world, faults, selected, strategy.Reason(), context, p.report);
      (Progress(w, WithoutAll(p.remaining, selected), report), None)
  }

  /** The strategies one after the other; clock(k) is what the clock shows when strategy k begins. */
  ghost function ApplyAll(p: Progress, volume: Volume, faults: Faults, strategies: seq<Strategy>, clock: nat -> Time)
    : (Progress, Option<SweepError>)
    requires volume.capacityBytes > 0
  {
    if strategies == [] then (p, None)
    else
      var n := |strategies| - 1;
      var (before, error) := ApplyAll(p, volume, faults, strategies[..n], clock);
      if error.Some? then (before, error)
      else ApplyStrategy(before, volume, faults, strategies[n], clock(n))
  }

  ghost function Begin(w: World, volume: Volume, faults: Faults, listing: seq<MediaClip>, startedAt: Time): Progress
    requires volume.capacityBytes > 0
  {
    Progress(w, Candidates(w, faults, listing),
             PurgeReport(startedAt, UsageOf(w, volume), UsageOf(w, volume), [], [], 0))
  }

  /** How a sweep ends: with the alert, or with the report and the disk as it is then. */
  ghost function Conclude(p: Progress, volume: Volume, error: Option<SweepError>)
    : (World, Result<PurgeReport, SweepError>)
    requires volume.capacityBytes > 0
  {
    match error
    case Some(e) => (p.world, Failure(e))
    case None => (p.world, Success(p.report.(diskUsageAfter := UsageOf(p.world, volume))))
  }

  /** A whole sweep: the world it leaves, and its report or its alert. */
  ghost function Sweep(w: World, volume: Volume, faults: Faults, strategies: seq<Strategy>, listing: seq<MediaClip>,
                       startedAt: Time, clock: nat -> Time): (World, Result<PurgeReport, SweepError>)
    requires volume.capacityBytes > 0
  {
    var (p, error) := ApplyAll(Begin(w, volume, faults, listing, startedAt), volume, faults, strategies, clock);
    Conclude(p, volume, error)
  }

  function BytesFreed(purged: seq<PurgeLogEntry>): nat {
    if purged == [] then 0 else BytesFreed(purged[..|purged| - 1]) + purged[|purged| - 1].bytesFreed
  }
}
