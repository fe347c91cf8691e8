/** What a sweep's report says against what the volume shows. */
module PurgeAccounting {
  import opened Outcomes
  import opened Sequences
  import opened Retention
  import opened PurgeSweep
  import opened PurgeProtocol
  import opened PurgeCrash

  /** Whatever a strategy selects comes from its candidates. */
  lemma SelectedAreCandidates(strategy: Strategy, candidates: seq<PurgeCandidate>, context: RetentionContext)
    requires Select(strategy, candidates, context).Success?
    ensures forall c :: c in Select(strategy, candidates, context).value ==>
      c in candidates && IsEligibleForPurge(c.clip)
  {
    match strategy
    case Lgpd(policy) =>
      FilterElements(candidates,
                     (c: PurgeCandidate) => IsEligibleForPurge(c.clip) && policy.HasExpired(c.clip, context.now));
    case DiskQuotaFifo(policy) =>
      OldestFirstElements(candidates);
  }

  lemma OldestFirstElements(candidates: seq<PurgeCandidate>)
    ensures forall c :: c in OldestFirst(candidates) <==> c in candidates && IsEligibleForPurge(c.clip)
  {
    FilterElements(candidates, (c: PurgeCandidate) => IsEligibleForPurge(c.clip));
    StableSortIsStable(Eligible(candidates), CreatedAt);
    forall c ensures c in OldestFirst(candidates) <==> c in Eligible(candidates) {
      assert c in OldestFirst(candidates) <==> c in multiset(OldestFirst(candidates));
      assert c in Eligible(candidates) <==> c in multiset(Eligible(candidates));
    }
  }

  lemma WithoutElements(candidates: seq<PurgeCandidate>, id: ClipId)
    ensures forall c :: c in Without(candidates, id) <==> c in candidates && c.clip.clipId != id
  {
    FilterElements(candidates, (c: PurgeCandidate) => c.clip.clipId != id);
  }

  lemma {:induction false} WithoutAllElements(candidates: seq<PurgeCandidate>, selected: seq<PurgeCandidate>)
    ensures forall c :: c in WithoutAll(candidates, selected) <==>
      c in candidates && forall s :: s in selected ==> s.clip.clipId != c.clip.clipId
  {
    if selected != [] {
      var n := |selected| - 1;
      WithoutAllElements(candidates, selected[..n]);
      WithoutElements(WithoutAll(candidates, selected[..n]), selected[n].clip.clipId);
      assert selected == selected[..n] + [selected[n]];
    }
  }

  // ------------------------------------------------------ byte conservation

  /** The report has the deletion of file p, with all its bytes. */
  ghost predicate IsReported(w0: World, purged: seq<PurgeLogEntry>, p: Path) {
    p in w0.files && exists entry :: entry in purged && Reports(entry, p) && entry.bytesFreed == w0.files[p]
  }

  predicate Reports(entry: PurgeLogEntry, p: Path) {
    entry.fileOutcome == Deleted && entry.filePath == p
  }

  /** The files that are gone since w0 without being reported. */
  ghost function Hidden(w0: World, w: World, purged: seq<PurgeLogEntry>): map<Path, nat> {
    map p | p in w0.files && p !in w.files && !IsReported(w0, purged, p) :: w0.files[p]
  }

  /** Why the deletion of p may go unreported: the update of its clip fails, or its size cannot be read. */
  ghost predicate MayHide(w0: World, faults: Faults, p: Path) {
    exists id :: IsPurgeable(w0, id) && w0.clips[id].filePath == p && id in faults.update + faults.sizing
  }

  /** Every byte that left the volume since w0 is in the report or was in a hidden file. */
  ghost predicate Accounted(w0: World, w: World, faults: Faults, purged: seq<PurgeLogEntry>) {
    && KeyedById(w0) && KeyedById(w) && OnlyPurges(w0, w)
    && (forall p :: p in w.files ==> p in w0.files && w.files[p] == w0.files[p])
    && (forall entry :: entry in purged && entry.fileOutcome == Deleted ==> entry.filePath !in w.files)
    && SumSizes(w.files) + BytesFreed(purged) + SumSizes(Hidden(w0, w, purged)) == SumSizes(w0.files)
    && (forall p :: p in Hidden(w0, w, purged) ==> MayHide(w0, faults, p))
  }

  /** The candidate was measured when the sweep began. */
  ghost predicate IsMeasured(w0: World, faults: Faults, c: PurgeCandidate) {
    c.clip.clipId in w0.clips && w0.clips[c.clip.clipId] == c.clip && c.sizeBytes == MeasuredSize(w0, faults, c.clip)
  }

  lemma BytesFreedGrows(purged: seq<PurgeLogEntry>, entry: PurgeLogEntry)
    ensures BytesFreed(purged + [entry]) == BytesFreed(purged) + entry.bytesFreed
  {
    assert (purged + [entry])[..|purged|] == purged;
  }

  predicate Adds(before: PurgeReport, after: PurgeReport, entry: PurgeLogEntry) {
    after.purged == before.purged + [entry]
  }

  /** One purge deletes no file and reports no deletion, or deletes the file of the clip and reports it with
      the measured size, or deletes it and fails to update the record. */
  lemma PurgeReportsWhatItDeletes(w: World, faults: Faults, c: PurgeCandidate, reason: PurgeReason,
                                  context: RetentionContext, report: PurgeReport)
    requires KeyedById(w)
    ensures var (v, after) := Purge(w, faults, c, reason, context, report);
      || (v.files == w.files && after.purged == report.purged)
      || (v.files == w.files && exists entry :: Adds(report, after, entry) && entry.fileOutcome != Deleted
                                                && entry.bytesFreed == 0)
      || (&& IsPurgeable(w, c.clip.clipId) && w.clips[c.clip.clipId].filePath in w.files
          && v.files == w.files - {w.clips[c.clip.clipId].filePath}
          && (|| (c.clip.clipId in faults.update && after.purged == report.purged)
              || exists entry :: Adds(report, after, entry) && Reports(entry, w.clips[c.clip.clipId].filePath)
                                 && entry.bytesFreed == c.sizeBytes))
  {
    var id := c.clip.clipId;
    if IsPurgeable(w, id) {
      var clip := w.clips[id];
      var release := ReleaseFile(w, faults, clip);
      if release.Some? {
        var entry := EntryFor(clip, c.sizeBytes, reason, release.value.1, context);
        assert entry.fileOutcome == Deleted ==> Reports(entry, clip.filePath) && entry.bytesFreed == c.sizeBytes;
        assert id in faults.update || Adds(report, Purge(w, faults, c, reason, context, report).1, entry);
      }
    }
  }

  lemma EntryReports(w0: World, purged: seq<PurgeLogEntry>, entry: PurgeLogEntry, p: Path)
    ensures IsReported(w0, purged + [entry], p) <==>
      IsReported(w0, purged, p) || (p in w0.files && Reports(entry, p) && entry.bytesFreed == w0.files[p])
  {
    assert forall e :: e in purged + [entry] <==> e in purged || e == entry;
  }

  /** An entry that reports no deletion changes nothing. */
  lemma EntryWithoutFile(w0: World, w: World, v: World, faults: Faults, purged: seq<PurgeLogEntry>,
                         entry: PurgeLogEntry)
    requires Accounted(w0, w, faults, purged) && KeyedById(v) && OnlyPurges(w0, v) && v.files == w.files
    requires entry.fileOutcome != Deleted && entry.bytesFreed == 0
    ensures Accounted(w0, v, faults, purged + [entry])
  {
    BytesFreedGrows(purged, entry);
    forall p ensures IsReported(w0, purged + [entry], p) <==> IsReported(w0, purged, p) {
      EntryReports(w0, purged, entry, p);
    }
    assert Hidden(w0, v, purged + [entry]) == Hidden(w0, w, purged);
  }

  /** What a deletion adds to the hidden files: its file, unless the report has all its bytes. */
  lemma HiddenGrows(w0: World, w: World, v: World, purged: seq<PurgeLogEntry>, more: seq<PurgeLogEntry>, p: Path)
    requires p in w.files && p in w0.files && v.files == w.files - {p} && !IsReported(w0, purged, p)
    requires forall q :: q != p ==> (IsReported(w0, more, q) <==> IsReported(w0, purged, q))
    ensures SumSizes(Hidden(w0, v, more)) ==
      SumSizes(Hidden(w0, w, purged)) + if IsReported(w0, more, p) then 0 else w0.files[p]
    ensures forall q :: q in Hidden(w0, v, more) ==> q in Hidden(w0, w, purged) || (q == p && !IsReported(w0, more, p))
  {
    var before, hidden := Hidden(w0, w, purged), Hidden(w0, v, more);
    if IsReported(w0, more, p) {
      assert hidden == before;
    } else {
      assert p in hidden && hidden - {p} == before;
      SumSizesTakes(hidden, p);
    }
  }

  /** A deletion that is not reported hides its file. */
  lemma DeletionHides(w0: World, w: World, v: World, faults: Faults, purged: seq<PurgeLogEntry>, p: Path)
    requires Accounted(w0, w, faults, purged) && KeyedById(v) && OnlyPurges(w0, v)
    requires p in w.files && v.files == w.files - {p} && MayHide(w0, faults, p)
    ensures Accounted(w0, v, faults, purged)
  {
    SumSizesTakes(w.files, p);
    HiddenGrows(w0, w, v, purged, purged, p);
  }

  /** A deletion that is reported adds its entry; bytes that the entry lacks are hidden. */
  lemma DeletionIsReported(w0: World, w: World, v: World, faults: Faults, purged: seq<PurgeLogEntry>,
                           entry: PurgeLogEntry, p: Path)
    requires Accounted(w0, w, faults, purged) && KeyedById(v) && OnlyPurges(w0, v)
    requires p in w.files && v.files == w.files - {p} && Reports(entry, p)
    requires entry.bytesFreed == w0.files[p] || (entry.bytesFreed == 0 && MayHide(w0, faults, p))
    ensures Accounted(w0, v, faults, purged + [entry])
  {
    BytesFreedGrows(purged, entry);
    SumSizesTakes(w.files, p);
    forall q ensures IsReported(w0, purged + [entry], q) <==>
      IsReported(w0, purged, q) || (q == p && entry.bytesFreed == w0.files[p])
    {
      EntryReports(w0, purged, entry, q);
    }
    HiddenGrows(w0, w, v, purged, purged + [entry], p);
  }

  lemma PurgeIsAccounted(w0: World, w: World, faults: Faults, c: PurgeCandidate, reason: PurgeReason,
                         context: RetentionContext, report: PurgeReport)
    requires Accounted(w0, w, faults, report.purged) && IsMeasured(w0, faults, c)
    ensures var (v, after) := Purge(w, faults, c, reason, context, report); Accounted(w0, v, faults, after.purged)
  {
    PurgeOnlyPurges(w, faults, c, reason, context, report);
    PurgeReportsWhatItDeletes(w, faults, c, reason, context, report);
    var (v, after) := Purge(w, faults, c, reason, context, report);
    var id, p := c.clip.clipId, c.clip.filePath;
    if v.files != w.files {
      assert IsPurgeable(w0, id) && w0.clips[id].filePath == p;
      if after.purged == report.purged {
        DeletionHides(w0, w, v, faults, report.purged, p);
      } else {
        var entry :| Adds(report, after, entry) && Reports(entry, p) && entry.bytesFreed == c.sizeBytes;
        DeletionIsReported(w0, w, v, faults, report.purged, entry, p);
      }
    } else if after.purged != report.purged {
      var entry :| Adds(report, after, entry) && entry.fileOutcome != Deleted && entry.bytesFreed == 0;
      EntryWithoutFile(w0, w, v, faults, report.purged, entry);
    } else {
      assert Hidden(w0, v, after.purged) == Hidden(w0, w, report.purged);
    }
  }

  lemma {:induction false} PurgeAllIsAccounted(w0: World, w: World, faults: Faults, selected: seq<PurgeCandidate>,
                                               reason: PurgeReason, context: RetentionContext, report: PurgeReport)
    requires Accounted(w0, w, faults, report.purged) && forall c :: c in selected ==> IsMeasured(w0, faults, c)
    ensures var (v, after) := PurgeAll(w, faults, selected, reason, context, report);
      Accounted(w0, v, faults, after.purged)
  {
    if selected != [] {
      var n := |selected| - 1;
      PurgeAllIsAccounted(w0, w, faults, selected[..n], reason, context, report);
      var (v, soFar) := PurgeAll(w, faults, selected[..n], reason, context, report);
      assert selected[n] in selected;
      PurgeIsAccounted(w0, v, faults, selected[n], reason, context, soFar);
    }
  }

  ghost predicate ProgressIsAccounted(w0: World, p: Progress, faults: Faults) {
    Accounted(w0, p.world, faults, p.report.purged) && forall c :: c in p.remaining ==> IsMeasured(w0, faults, c)
  }

  lemma ApplyStrategyIsAccounted(w0: World, p: Progress, volume: Volume, faults: Faults, strategy: Strategy, now: Time)
    requires volume.capacityBytes > 0 && ProgressIsAccounted(w0, p, faults)
    ensures ProgressIsAccounted(w0, ApplyStrategy(p, volume, faults, strategy, now).0, faults)
    ensures ApplyStrategy(p, volume, faults, strategy, now).0.report.diskUsageBefore == p.report.diskUsageBefore
  {
    var context := ContextOf(p.world, volume, now);
    var selected := Select(strategy, p.remaining, context);
    if selected.Success? {
      SelectedAreCandidates(strategy, p.remaining, context);
      PurgeAllIsAccounted(w0, p.world, faults, selected.value, strategy.Reason(), context, p.report);
      WithoutAllElements(p.remaining, selected.value);
      PurgeAllKeepsBefore(p.world, faults, selected.value, strategy.Reason(), context, p.report);
    }
  }

  lemma {:induction false} PurgeAllKeepsBefore(w: World, faults: Faults, selected: seq<PurgeCandidate>,
                                               reason: PurgeReason, context: RetentionContext, report: PurgeReport)
    ensures PurgeAll(w, faults, selected, reason, context, report).1.diskUsageBefore == report.diskUsageBefore
  {
    if selected != [] {
      PurgeAllKeepsBefore(w, faults, selected[..|selected| - 1], reason, context, report);
    }
  }

  lemma {:induction false} ApplyAllIsAccounted(w0: World, p: Progress, volume: Volume, faults: Faults,
                                               strategies: seq<Strategy>, clock: nat -> Time)
    requires volume.capacityBytes > 0 && ProgressIsAccounted(w0, p, faults)
    ensures ProgressIsAccounted(w0, ApplyAll(p, volume, faults, strategies, clock).0, faults)
    ensures ApplyAll(p, volume, faults, strategies, clock).0.report.diskUsageBefore == p.report.diskUsageBefore
  {
    if strategies != [] {
      var n := |strategies| - 1;
      ApplyAllIsAccounted(w0, p, volume, faults, strategies[..n], clock);
      var (q, error) := ApplyAll(p, volume, faults, strategies[..n], clock);
      if error.None? {
        ApplyStrategyIsAccounted(w0, q, volume, faults, strategies[n], clock(n));
      }
    }
  }

  lemma CandidatesAreMeasured(w: World, faults: Faults, listing: seq<MediaClip>)
    requires IsListing(w, listing)
    ensures forall c :: c in Candidates(w, faults, listing) ==> IsMeasured(w, faults, c)
  {
    CandidatesAreListed(w, faults, listing);
    forall c | c in Candidates(w, faults, listing) ensures IsMeasured(w, faults, c) {
      var i :| 0 <= i < |listing| && Candidates(w, faults, listing)[i] == c;
      assert listing[i] in listing;
    }
  }

  lemma SweepBeginsAccounted(w: World, faults: Faults)
    requires KeyedById(w)
    ensures Accounted(w, w, faults, [])
  {
    assert Hidden(w, w, []) == map[];
  }

  /** Byte conservation, for any strategies and any failures: the bytes the volume lost are those the report
      counts and those of the hidden files, and a file is hidden only by a failed update or an unreadable
      size. So the report never counts too much, and counts all exactly when no hidden file has bytes. */
  lemma BytesAreConserved(w: World, volume: Volume, faults: Faults, strategies: seq<Strategy>, listing: seq<MediaClip>,
                          startedAt: Time, clock: nat -> Time)
    requires volume.capacityBytes > 0 && KeyedById(w) && IsListing(w, listing)
    ensures var (v, r) := Sweep(w, volume, faults, strategies, listing, startedAt, clock);
      r.Success? ==>
        var report, hidden := r.value, Hidden(w, v, r.value.purged);
        && report.diskUsageBefore == UsageOf(w, volume) && report.diskUsageAfter == UsageOf(v, volume)
        && report.diskUsageBefore.usedBytes - report.diskUsageAfter.usedBytes ==
          BytesFreed(report.purged) + SumSizes(hidden)
        && forall p :: p in hidden ==> MayHide(w, faults, p)
  {
    var p := Begin(w, volume, faults, listing, startedAt);
    CandidatesAreMeasured(w, faults, listing);
    SweepBeginsAccounted(w, faults);
    ApplyAllIsAccounted(w, p, volume, faults, strategies, clock);
  }

  /** Without failed updates and unreadable sizes nothing is hidden, shared and missing files included. */
  lemma FaultlessSweepConserves(w: World, volume: Volume, faults: Faults, strategies: seq<Strategy>,
                                listing: seq<MediaClip>, startedAt: Time, clock: nat -> Time)
    requires volume.capacityBytes > 0 && KeyedById(w) && IsListing(w, listing)
    requires faults.update == {} && faults.sizing == {}
    ensures var r := Sweep(w, volume, faults, strategies, listing, startedAt, clock).1;
      r.Success? ==>
        r.value.diskUsageBefore.usedBytes - r.value.diskUsageAfter.usedBytes == BytesFreed(r.value.purged)
  {
    BytesAreConserved(w, volume, faults, strategies, listing, startedAt, clock);
    var (v, r) := Sweep(w, volume, faults, strategies, listing, startedAt, clock);
    if r.Success? {
      assert Hidden(w, v, r.value.purged) == map[];
    }
  }

  /** The purge of this clip deletes a file with bytes in it and then fails to update the record. */
  predicate LosesBytes(w: World, faults: Faults, id: ClipId) {
    && IsPurgeable(w, id) && w.clips[id].filePath in w.files && w.files[w.clips[id].filePath] > 0
    && !IsSharedWithRetainedClip(w, w.clips[id])
    && id !in faults.lookup && id !in faults.removal && id in faults.update
  }

  /** One purge is conservative exactly unless the update fails after a file with bytes in it is gone:
      then those bytes are free and not reported. */
  lemma PurgeConservesExactly(w: World, faults: Faults, c: PurgeCandidate, reason: PurgeReason,
                              context: RetentionContext, report: PurgeReport)
    requires KeyedById(w)
    requires c.clip.clipId in w.clips && w.clips[c.clip.clipId].filePath in w.files
             ==> c.sizeBytes == w.files[w.clips[c.clip.clipId].filePath]
    ensures var (v, after) := Purge(w, faults, c, reason, context, report);
      (SumSizes(v.files) + BytesFreed(after.purged) == SumSizes(w.files) + BytesFreed(report.purged))
      <==> !LosesBytes(w, faults, c.clip.clipId)
  {
    var id := c.clip.clipId;
    if IsPurgeable(w, id) {
      if w.clips[id].filePath in w.files {
        SumSizesTakes(w.files, w.clips[id].filePath);
      }
      var release := ReleaseFile(w, faults, w.clips[id]);
      if release.Some? {
        BytesFreedGrows(report.purged, EntryFor(w.clips[id], c.sizeBytes, reason, release.value.1, context));
      }
    }
  }

  // ------------------------------------------------- a second sweep is idle

  ghost predicate OneFilePerClip(w: World) {
    forall a, b :: a in w.clips && b in w.clips && a != b && w.clips[a].isRetained && w.clips[b].isRetained ==>
      w.clips[a].filePath != w.clips[b].filePath
  }

  ghost predicate DistinctIds(candidates: seq<PurgeCandidate>) {
    forall i, j :: 0 <= i < j < |candidates| ==> candidates[i].clip.clipId != candidates[j].clip.clipId
  }

  /** The remaining candidates are the purgeable clips as they are now. */
  ghost predicate Tracks(w: World, remaining: seq<PurgeCandidate>) {
    && KeyedById(w) && OneFilePerClip(w)
    && (forall c :: c in remaining ==> IsPurgeable(w, c.clip.clipId) && IsMeasured(w, NO_FAULTS, c))
    && (forall id :: IsPurgeable(w, id) ==> exists c :: c in remaining && c.clip.clipId == id)
  }

  lemma NothingIsShared(w: World, clip: MediaClip)
    requires KeyedById(w) && OneFilePerClip(w)
    requires clip.clipId in w.clips && w.clips[clip.clipId] == clip && clip.isRetained
    ensures !IsSharedWithRetainedClip(w, clip)
  {
  }

  /** Purging one tracked candidate frees its measured size and nothing else. */
  lemma PurgeFreesItsSize(w: World, remaining: seq<PurgeCandidate>, c: PurgeCandidate, reason: PurgeReason,
                          context: RetentionContext, report: PurgeReport)
    requires Tracks(w, remaining) && c in remaining
    ensures var v := Purge(w, NO_FAULTS, c, reason, context, report).0;
      && Tracks(v, Without(remaining, c.clip.clipId))
      && SumSizes(v.files) + c.sizeBytes == SumSizes(w.files)
  {
    var id := c.clip.clipId;
    var v := Purge(w, NO_FAULTS, c, reason, context, report).0;
    NothingIsShared(w, c.clip);
    PurgeOnlyPurges(w, NO_FAULTS, c, reason, context, report);
    WithoutElements(remaining, id);
    if c.clip.filePath in w.files {
      SumSizesTakes(w.files, c.clip.filePath);
    }
    forall d | d in Without(remaining, id) ensures IsPurgeable(v, d.clip.clipId) && IsMeasured(v, NO_FAULTS, d) {
      assert v.clips[d.clip.clipId] == w.clips[d.clip.clipId];
      assert d.clip.filePath != c.clip.filePath;
    }
    forall x | IsPurgeable(v, x) ensures exists d :: d in Without(remaining, id) && d.clip.clipId == x {
      assert x != id && IsPurgeable(w, x);
      var d :| d in remaining && d.clip.clipId == x;
      assert d in Without(remaining, id);
    }
  }

  lemma {:induction false} PurgeAllFreesSizes(w: World, remaining: seq<PurgeCandidate>, selected: seq<PurgeCandidate>,
                                              reason: PurgeReason, context: RetentionContext, report: PurgeReport)
    requires Tracks(w, remaining) && DistinctIds(selected) && forall c :: c in selected ==> c in remaining
    ensures var v := PurgeAll(w, NO_FAULTS, selected, reason, context, report).0;
      && Tracks(v, WithoutAll(remaining, selected))
      && SumSizes(v.files) + SizeOf(selected) == SumSizes(w.files)
  {
    if selected != [] {
      var n := |selected| - 1;
      assert selected == selected[..n] + [selected[n]];
      PurgeAllFreesSizes(w, remaining, selected[..n], reason, context, report);
      var (v, soFar) := PurgeAll(w, NO_FAULTS, selected[..n], reason, context, report);
      WithoutAllElements(remaining, selected[..n]);
      assert selected[n] in remaining;
      PurgeFreesItsSize(v, WithoutAll(remaining, selected[..n]), selected[n], reason, context, soFar);
    }
  }

  lemma {:induction false} FilterKeepsDistinct(s: seq<PurgeCandidate>, keep: PurgeCandidate -> bool)
    requires DistinctIds(s)
    ensures DistinctIds(Filter(s, keep))
  {
    if s != [] {
      FilterKeepsDistinct(s[1..], keep);
      FilterElements(s[1..], keep);
      var rest := Filter(s[1..], keep);
      forall j | 0 <= j < |rest| ensures rest[j].clip.clipId != s[0].clip.clipId {
        assert rest[j] in s[1..];
      }
    }
  }

  lemma {:induction false} InsertKeepsDistinct(x: PurgeCandidate, s: seq<PurgeCandidate>)
    requires DistinctIds(s) && forall c :: c in s ==> c.clip.clipId != x.clip.clipId
    ensures DistinctIds(InsertByKey(x, s, CreatedAt))
    ensures forall c :: c in InsertByKey(x, s, CreatedAt) <==> c == x || c in s
  {
    if s != [] && CreatedAt(x) > CreatedAt(s[0]) {
      InsertKeepsDistinct(x, s[1..]);
      var rest := InsertByKey(x, s[1..], CreatedAt);
      forall c | c in rest ensures c.clip.clipId != s[0].clip.clipId {
        assert c == x || c in s[1..];
      }
      assert forall c :: c in s <==> c == s[0] || c in s[1..];
    }
  }

  lemma {:induction false} SortKeepsDistinct(s: seq<PurgeCandidate>)
    requires DistinctIds(s)
    ensures DistinctIds(StableSort(s, CreatedAt))
  {
    if s != [] {
      SortKeepsDistinct(s[1..]);
      var rest := StableSort(s[1..], CreatedAt);
      StableSortIsStable(s[1..], CreatedAt);
      forall c | c in rest ensures c.clip.clipId != s[0].clip.clipId {
        assert c in multiset(rest);
        assert c in s[1..];
      }
      InsertKeepsDistinct(s[0], rest);
    }
  }

  lemma SelectedAreDistinct(strategy: Strategy, candidates: seq<PurgeCandidate>, context: RetentionContext)
    requires DistinctIds(candidates) && Select(strategy, candidates, context).Success?
    ensures DistinctIds(Select(strategy, candidates, context).value)
  {
    match strategy
    case Lgpd(policy) =>
      FilterKeepsDistinct(candidates,
                          (c: PurgeCandidate) => IsEligibleForPurge(c.clip) && policy.HasExpired(c.clip, context.now));
    case DiskQuotaFifo(policy) =>
      FilterKeepsDistinct(candidates, (c: PurgeCandidate) => IsEligibleForPurge(c.clip));
      SortKeepsDistinct(Eligible(candidates));
  }

  lemma {:induction false} WithoutAllIsDistinct(candidates: seq<PurgeCandidate>, selected: seq<PurgeCandidate>)
    requires DistinctIds(candidates)
    ensures DistinctIds(WithoutAll(candidates, selected))
  {
    if selected != [] {
      var n := |selected| - 1;
      WithoutAllIsDistinct(candidates, selected[..n]);
      FilterKeepsDistinct(WithoutAll(candidates, selected[..n]),
                          (c: PurgeCandidate) => c.clip.clipId != selected[n].clip.clipId);
    }
  }

  lemma ListedAreTracked(w: World, listing: seq<MediaClip>)
    requires KeyedById(w) && OneFilePerClip(w) && IsListing(w, listing)
    ensures Tracks(w, Candidates(w, NO_FAULTS, listing)) && DistinctIds(Candidates(w, NO_FAULTS, listing))
  {
    CandidatesAreListed(w, NO_FAULTS, listing);
    CandidatesAreMeasured(w, NO_FAULTS, listing);
    var candidates := Candidates(w, NO_FAULTS, listing);
    forall c | c in candidates ensures IsPurgeable(w, c.clip.clipId) {
      var i :| 0 <= i < |candidates| && candidates[i] == c;
      assert listing[i] in listing;
    }
    forall id | IsPurgeable(w, id) ensures exists c :: c in candidates && c.clip.clipId == id {
      assert w.clips[id] in listing;
      var i :| 0 <= i < |listing| && listing[i] == w.clips[id];
      assert candidates[i] in candidates;
    }
  }

  /** One strategy over tracked candidates: they stay tracked, and the volume shrinks by what was selected. */
  lemma StrategyFreesSizes(p: Progress, volume: Volume, strategy: Strategy, now: Time)
    requires volume.capacityBytes > 0 && Tracks(p.world, p.remaining) && DistinctIds(p.remaining)
    ensures var (q, error) := ApplyStrategy(p, volume, NO_FAULTS, strategy, now);
      && Tracks(q.world, q.remaining) && DistinctIds(q.remaining)
      && (error.Some? ==> q == p)
      && (error.None? ==>
            var selected := Select(strategy, p.remaining, ContextOf(p.world, volume, now)).value;
            && q.remaining == WithoutAll(p.remaining, selected)
            && SumSizes(q.world.files) + SizeOf(selected) == SumSizes(p.world.files))
  {
    var context := ContextOf(p.world, volume, now);
    var chosen := Select(strategy, p.remaining, context);
    if chosen.Success? {
      SelectedAreCandidates(strategy, p.remaining, context);
      SelectedAreDistinct(strategy, p.remaining, context);
      PurgeAllFreesSizes(p.world, p.remaining, chosen.value, strategy.Reason(), context, p.report);
      WithoutAllIsDistinct(p.remaining, chosen.value);
    }
  }

  ghost predicate IsWithinVolume(w: World, volume: Volume) {
    volume.capacityBytes > 0 && volume.bytesUsedByOthers + SumSizes(w.files) <= volume.capacityBytes
  }

  /** The projection the quota decided on is the usage the volume then shows. */
  lemma ProjectionIsReal(w: World, v: World, volume: Volume, freed: nat)
    requires IsWithinVolume(w, volume) && SumSizes(v.files) + freed == SumSizes(w.files)
    ensures UsageOf(v, volume) == UsageOf(w, volume).AfterFreeing(freed)
  {
  }

  ghost predicate QuotaIsDone(p: Progress, volume: Volume, quota: QuotaPolicy)
    requires volume.capacityBytes > 0
  {
    quota.IsExceededBy(UsageOf(p.world, volume)) ==> p.remaining == []
  }

  /** After the quota has been applied, the trigger is not reached or nothing is left to purge. */
  lemma QuotaSettles(p: Progress, volume: Volume, quota: QuotaPolicy, now: Time)
    requires IsWithinVolume(p.world, volume) && Tracks(p.world, p.remaining) && DistinctIds(p.remaining)
    ensures QuotaIsDone(ApplyStrategy(p, volume, NO_FAULTS, DiskQuotaFifo(quota), now).0, volume, quota)
  {
    var usage := UsageOf(p.world, volume);
    var order := OldestFirst(p.remaining);
    var q := ApplyStrategy(p, volume, NO_FAULTS, DiskQuotaFifo(quota), now).0;
    StrategyFreesSizes(p, volume, DiskQuotaFifo(quota), now);
    OldestFirstElements(p.remaining);
    if !quota.IsExceededBy(usage) {
      assert WithoutAll(p.remaining, []) == p.remaining;
    } else if order == [] {
      HeadIsElement(p.remaining);
    } else {
      var n := QuotaCut(quota, order, usage);
      ProjectionIsReal(p.world, q.world, volume, SizeOf(order[..n]));
      if n < |order| {
        ExceededIsNotSatisfied(quota, UsageOf(q.world, volume));
      } else {
        assert order[..n] == order;
        WithoutAllElements(p.remaining, order);
        HeadIsElement(q.remaining);
      }
    }
  }

  ghost predicate IsDrained(w: World) {
    forall id :: !IsPurgeable(w, id)
  }

  /** The strategy has nothing to do in this world but, perhaps, to raise the alert. */
  ghost predicate IsQuiet(w: World, volume: Volume, strategy: Strategy, now: Time)
    requires volume.capacityBytes > 0
  {
    match strategy
    case Lgpd(policy) => forall id :: id in w.clips ==> !IsDoomed(w.clips[id], policy, now)
    case DiskQuotaFifo(quota) => quota.IsExceededBy(UsageOf(w, volume)) ==> IsDrained(w)
  }

  lemma LessUseIsNotExceeded(quota: QuotaPolicy, more: DiskUsage, less: DiskUsage)
    requires less.usedBytes <= more.usedBytes && less.CapacityBytes() == more.CapacityBytes()
    requires quota.IsExceededBy(less)
    ensures quota.IsExceededBy(more)
  {
    RatioGrows(less.usedBytes as real, more.usedBytes as real, more.CapacityBytes() as real);
  }

  lemma RatioGrows(a: real, b: real, c: real)
    requires a <= b && c > 0.0
    ensures a / c <= b / c
  {
    assert b / c == a / c + (b - a) / c;
  }

  /** Purges disturb no strategy that is quiet. */
  lemma PurgesKeepQuiet(w: World, v: World, volume: Volume, strategy: Strategy, now: Time)
    requires IsWithinVolume(w, volume) && OnlyPurges(w, v) && SumSizes(v.files) <= SumSizes(w.files)
    requires IsQuiet(w, volume, strategy, now)
    ensures IsQuiet(v, volume, strategy, now)
  {
    if strategy.DiskQuotaFifo? && strategy.quota.IsExceededBy(UsageOf(v, volume)) {
      LessUseIsNotExceeded(strategy.quota, UsageOf(w, volume), UsageOf(v, volume));
      forall id ensures !IsPurgeable(v, id) {
        assert !IsPurgeable(w, id);
      }
    }
  }

  /** An applied LGPD strategy is quiet: the candidates are all there is to purge, and those whose term is
      over are purged. */
  lemma LgpdSettles(p: Progress, volume: Volume, policy: RetentionPolicy, now: Time)
    requires volume.capacityBytes > 0 && Tracks(p.world, p.remaining)
    ensures var q := ApplyStrategy(p, volume, NO_FAULTS, Lgpd(policy), now).0;
      IsQuiet(q.world, volume, Lgpd(policy), now)
  {
    var context := ContextOf(p.world, volume, now);
    var selected := Expired(p.remaining, policy, now);
    var v := PurgeAll(p.world, NO_FAULTS, selected, RetentionPeriodExpired, context, p.report).0;
    PurgeAllOnlyPurges(p.world, NO_FAULTS, selected, RetentionPeriodExpired, context, p.report);
    FilterElements(p.remaining, (c: PurgeCandidate) => IsEligibleForPurge(c.clip) && policy.HasExpired(c.clip, now));
    forall id | id in p.world.clips && IsDoomed(p.world.clips[id], policy, now) ensures !IsPurgeable(v, id) {
      assert IsPurgeable(p.world, id);
      var c :| c in p.remaining && c.clip.clipId == id;
      assert c in selected;
    }
    assert forall id :: id in v.clips && IsDoomed(v.clips[id], policy, now) ==> IsPurgeable(v, id);
  }

  lemma StrategyOnlyPurges(p: Progress, volume: Volume, strategy: Strategy, now: Time)
    requires volume.capacityBytes > 0 && KeyedById(p.world)
    ensures OnlyPurges(p.world, ApplyStrategy(p, volume, NO_FAULTS, strategy, now).0.world)
  {
    var context := ContextOf(p.world, volume, now);
    var chosen := Select(strategy, p.remaining, context);
    if chosen.Success? {
      PurgeAllOnlyPurges(p.world, NO_FAULTS, chosen.value, strategy.Reason(), context, p.report);
    }
  }

  lemma AlertMeansDrained(p: Progress, volume: Volume, strategy: Strategy, now: Time)
    requires volume.capacityBytes > 0 && Tracks(p.world, p.remaining)
    requires Select(strategy, p.remaining, ContextOf(p.world, volume, now)).Failure?
    ensures IsDrained(p.world)
  {
    OldestFirstElements(p.remaining);
    HeadIsElement(p.remaining);
  }

  ghost predicate IsSettling(p: Progress, volume: Volume) {
    IsWithinVolume(p.world, volume) && Tracks(p.world, p.remaining) && DistinctIds(p.remaining)
  }

  /** An applied strategy is quiet; one that raises the alert leaves things as they are, with nothing left
      to purge. */
  lemma StrategySettles(p: Progress, volume: Volume, strategy: Strategy, now: Time)
    requires IsSettling(p, volume)
    ensures var (q, error) := ApplyStrategy(p, volume, NO_FAULTS, strategy, now);
      && IsSettling(q, volume) && OnlyPurges(p.world, q.world) && SumSizes(q.world.files) <= SumSizes(p.world.files)
      && (error.None? ==> IsQuiet(q.world, volume, strategy, now))
      && (error.Some? ==> IsDrained(q.world))
  {
    StrategyFreesSizes(p, volume, strategy, now);
    StrategyOnlyPurges(p, volume, strategy, now);
    var (q, error) := ApplyStrategy(p, volume, NO_FAULTS, strategy, now);
    if error.Some? {
      AlertMeansDrained(p, volume, strategy, now);
    } else if strategy.Lgpd? {
      LgpdSettles(p, volume, strategy.retention, now);
    } else {
      QuotaSettles(p, volume, strategy.quota, now);
    }
  }

  ghost predicate AreQuiet(w: World, volume: Volume, strategies: seq<Strategy>, now: Time)
    requires volume.capacityBytes > 0
  {
    forall s :: s in strategies ==> IsQuiet(w, volume, s, now)
  }

  lemma OneMoreSettles(p: Progress, volume: Volume, before: seq<Strategy>, strategy: Strategy, now: Time)
    requires IsSettling(p, volume) && AreQuiet(p.world, volume, before, now)
    ensures var (q, error) := ApplyStrategy(p, volume, NO_FAULTS, strategy, now);
      && IsSettling(q, volume)
      && (error.None? ==> AreQuiet(q.world, volume, before + [strategy], now))
      && (error.Some? ==> IsDrained(q.world))
  {
    StrategySettles(p, volume, strategy, now);
    var q := ApplyStrategy(p, volume, NO_FAULTS, strategy, now).0;
    forall s | s in before ensures IsQuiet(q.world, volume, s, now) {
      PurgesKeepQuiet(p.world, q.world, volume, s, now);
    }
  }

  /** After all strategies each of them is quiet; after an alert nothing is left to purge. */
  lemma {:induction false} StrategiesSettle(p: Progress, volume: Volume, strategies: seq<Strategy>, now: Time,
                                            clock: nat -> Time)
    requires IsSettling(p, volume) && forall k :: clock(k) == now
    ensures var (q, error) := ApplyAll(p, volume, NO_FAULTS, strategies, clock);
      && IsSettling(q, volume)
      && (error.None? ==> AreQuiet(q.world, volume, strategies, now))
      && (error.Some? ==> IsDrained(q.world))
  {
    if strategies != [] {
      var n := |strategies| - 1;
      StrategiesSettle(p, volume, strategies[..n], now, clock);
      var (m, error) := ApplyAll(p, volume, NO_FAULTS, strategies[..n], clock);
      assert strategies == strategies[..n] + [strategies[n]];
      if error.None? {
        OneMoreSettles(m, volume, strategies[..n], strategies[n], now);
      }
    }
  }

  ghost predicate ArePurgeable(p: Progress) {
    forall c :: c in p.remaining ==> IsPurgeable(p.world, c.clip.clipId) && p.world.clips[c.clip.clipId] == c.clip
  }

  lemma QuietStrategyIsIdle(p: Progress, volume: Volume, strategy: Strategy, now: Time)
    requires volume.capacityBytes > 0 && ArePurgeable(p) && IsQuiet(p.world, volume, strategy, now)
    ensures ApplyStrategy(p, volume, NO_FAULTS, strategy, now).0 == p
  {
    if strategy.Lgpd? {
      var expired := (c: PurgeCandidate) => IsEligibleForPurge(c.clip) && strategy.retention.HasExpired(c.clip, now);
      FilterNone(p.remaining, expired);
      assert Expired(p.remaining, strategy.retention, now) == [];
    } else if strategy.quota.IsExceededBy(UsageOf(p.world, volume)) {
      HeadIsElement(p.remaining);
    }
  }

  lemma {:induction false} QuietStrategiesAreIdle(p: Progress, volume: Volume, strategies: seq<Strategy>, now: Time,
                                                  clock: nat -> Time)
    requires volume.capacityBytes > 0 && ArePurgeable(p) && forall k :: clock(k) == now
    requires AreQuiet(p.world, volume, strategies, now)
    ensures ApplyAll(p, volume, NO_FAULTS, strategies, clock).0 == p
  {
    if strategies != [] {
      var n := |strategies| - 1;
      QuietStrategiesAreIdle(p, volume, strategies[..n], now, clock);
      QuietStrategyIsIdle(p, volume, strategies[n], now);
    }
  }

  /** The sweep purged nothing: it raised the alert, or its report is empty. */
  predicate PurgedNothing(r: Result<PurgeReport, SweepError>) {
    r == Failure(DiskQuotaExceededError)
    || (r.Success? && r.value.purged == [] && r.value.failures == [] && r.value.skippedNoLongerEligible == 0)
  }

  lemma QuietSweepIsIdle(w: World, volume: Volume, strategies: seq<Strategy>, listing: seq<MediaClip>,
                         startedAt: Time, now: Time, clock: nat -> Time)
    requires volume.capacityBytes > 0 && IsListing(w, listing) && forall k :: clock(k) == now
    requires AreQuiet(w, volume, strategies, now)
    ensures var (v, r) := Sweep(w, volume, NO_FAULTS, strategies, listing, startedAt, clock);
      v == w && PurgedNothing(r)
  {
    var begin := Begin(w, volume, NO_FAULTS, listing, startedAt);
    CandidatesAreMeasured(w, NO_FAULTS, listing);
    CandidatesAreListed(w, NO_FAULTS, listing);
    forall c | c in begin.remaining ensures IsPurgeable(w, c.clip.clipId) {
      var i :| 0 <= i < |listing| && begin.remaining[i] == c;
      assert listing[i] in listing;
    }
    QuietStrategiesAreIdle(begin, volume, strategies, now, clock);
    var (p, error) := ApplyAll(begin, volume, NO_FAULTS, strategies, clock);
    match error
    case Some(e) => assert e == DiskQuotaExceededError;
    case None => assert p == begin;
  }

  /** With one file per clip, sizes that can be read, no failures and a clock that stands still, a second
      sweep purges nothing more, whatever the strategies and their order. It may only raise the alert. */
  lemma SecondSweepIsIdle(w: World, volume: Volume, strategies: seq<Strategy>, listing: seq<MediaClip>,
                          startedAt: Time, now: Time, clock: nat -> Time, secondListing: seq<MediaClip>)
    requires IsWithinVolume(w, volume) && KeyedById(w) && OneFilePerClip(w) && IsListing(w, listing)
    requires forall k :: clock(k) == now
    requires IsListing(Sweep(w, volume, NO_FAULTS, strategies, listing, startedAt, clock).0, secondListing)
    ensures var first := Sweep(w, volume, NO_FAULTS, strategies, listing, startedAt, clock).0;
      var (second, r) := Sweep(first, volume, NO_FAULTS, strategies, secondListing, startedAt, clock);
      second == first && PurgedNothing(r)
  {
    var begin := Begin(w, volume, NO_FAULTS, listing, startedAt);
    ListedAreTracked(w, listing);
    StrategiesSettle(begin, volume, strategies, now, clock);
    var first := Sweep(w, volume, NO_FAULTS, strategies, listing, startedAt, clock).0;
    forall s | s in strategies ensures IsQuiet(first, volume, s, now) {
    }
    QuietSweepIsIdle(first, volume, strategies, secondListing, startedAt, now, clock);
  }
}
