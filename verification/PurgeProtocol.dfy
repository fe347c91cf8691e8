/** The purge as a protocol of durable steps (delete the file, mark the record, append to the log) that
    may fail or be cut off by a crash after any of them, with auditors and the recorder at work in
    between. */
module PurgeProtocol {
  import opened Outcomes
  import opened Retention
  import opened PurgeSweep

  /** How far the clip in hand has come; a crash forgets it. */
  datatype Phase = Idle | Released(clip: MediaClip) | Marked(clip: MediaClip)

  datatype System = System(world: World, phase: Phase)

  // ----------------------------------------------------------------- steps

  /** The record is read again, found purgeable, and its file is deleted, missing already, or kept. */
  ghost predicate ReleaseStep(s: System, t: System, id: ClipId) {
    && s.phase == Idle
    && IsPurgeable(s.world, id)
    && ReleaseFile(s.world, NO_FAULTS, s.world.clips[id]).Some?
    && t == System(ReleaseFile(s.world, NO_FAULTS, s.world.clips[id]).value.0, Released(s.world.clips[id]))
  }

  ghost predicate MarkStep(s: System, t: System) {
    s.phase.Released? && t == System(MarkPurged(s.world, s.phase.clip), Marked(s.phase.clip))
  }

  ghost predicate RecordStep(s: System, t: System) {
    && s.phase.Marked?
    && exists entry: PurgeLogEntry :: entry.clipId == s.phase.clip.clipId && t == System(Append(s.world, entry), Idle)
  }

  /** A failed call, a crash, a restart: the clip in hand is dropped, what is durable stays. */
  ghost predicate AbortStep(s: System, t: System) {
    t == System(s.world, Idle)
  }

  /** An auditor locks or unlocks a clip. */
  ghost predicate LockStep(s: System, t: System, id: ClipId, isLocked: bool) {
    && !s.phase.Released?
    && id in s.world.clips
    && t == s.(world := s.world.(clips := s.world.clips[id := s.world.clips[id].(isLockedForAudit := isLocked)]))
  }

  /** The recorder writes a file, new or over the old one. Its record is saved later, or never. */
  ghost predicate WriteFileStep(s: System, t: System, p: Path, sizeBytes: nat) {
    !s.phase.Released? && t == s.(world := s.world.(files := s.world.files[p := sizeBytes]))
  }

  /** The recorder saves the record of a file it wrote, whatever became of the file since. Files are
      named by event, so a path that is known already belongs to the same event. */
  ghost predicate SaveRecordStep(s: System, t: System, clip: MediaClip) {
    && !s.phase.Released?
    && clip.clipId !in s.world.clips
    && clip.isRetained
    && (forall id :: id in s.world.clips && s.world.clips[id].filePath == clip.filePath
                     ==> s.world.clips[id].eventId == clip.eventId)
    && t == s.(world := s.world.(clips := s.world.clips[clip.clipId := clip]))
  }

  ghost predicate PurgeStep(s: System, t: System) {
    (exists id :: ReleaseStep(s, t, id)) || MarkStep(s, t) || RecordStep(s, t) || AbortStep(s, t)
  }

  ghost predicate Step(s: System, t: System) {
    || PurgeStep(s, t)
    || (exists id, isLocked :: LockStep(s, t, id, isLocked))
    || (exists p, sizeBytes :: WriteFileStep(s, t, p, sizeBytes))
    || (exists clip :: SaveRecordStep(s, t, clip))
  }

  ghost predicate StepAt(run: seq<System>, i: nat)
    requires i + 1 < |run|
  {
    Step(run[i], run[i + 1])
  }

  ghost predicate IsRun(run: seq<System>) {
    run != [] && forall i :: 0 <= i < |run| - 1 ==> StepAt(run, i)
  }

  // ---------------------------------------------------------------- safety

  ghost predicate KeyedById(w: World) {
    forall id :: id in w.clips ==> w.clips[id].clipId == id
  }

  ghost predicate OneEventPerPath(w: World) {
    forall a, b :: a in w.clips && b in w.clips && w.clips[a].filePath == w.clips[b].filePath
                   ==> w.clips[a].eventId == w.clips[b].eventId
  }

  ghost predicate IsHeldBy(w: World, p: Path, id: ClipId) {
    id in w.clips && w.clips[id].isRetained && w.clips[id].filePath == p
  }

  ghost predicate IsHeld(w: World, p: Path) {
    exists keeper :: IsHeldBy(w, p, keeper)
  }

  ghost predicate IsHeldByOther(w: World, p: Path, id: ClipId) {
    exists other :: other != id && IsHeldBy(w, p, other)
  }

  ghost predicate Names(w: World, id: ClipId, p: Path) {
    id in w.clips && w.clips[id].filePath == p
  }

  ghost predicate PhaseIsSound(s: System) {
    match s.phase
    case Idle => true
    case Released(clip) =>
      && clip.clipId in s.world.clips && s.world.clips[clip.clipId] == clip && IsEligibleForPurge(clip)
      && (clip.filePath in s.world.files ==> IsHeldByOther(s.world, clip.filePath, clip.clipId))
    case Marked(clip) => clip.clipId in s.world.clips && !s.world.clips[clip.clipId].isRetained
  }

  ghost predicate IsSafe(s: System) {
    KeyedById(s.world) && OneEventPerPath(s.world) && PhaseIsSound(s)
  }

  // ------------------------------------------------------ the sharing check

  /** Purging the clip deletes a file that another retained clip needs. */
  ghost predicate DestroysMediaOfOther(w: World, clip: MediaClip) {
    && ReleaseFile(w, NO_FAULTS, clip).Some? && ReleaseFile(w, NO_FAULTS, clip).value.1 == Deleted
    && IsHeldByOther(w, clip.filePath, clip.clipId)
  }

  /** The check is blind in one case exactly: others hold the file, and all of them for other events. */
  lemma SharingCheckFailsExactly(w: World, clip: MediaClip)
    requires KeyedById(w)
    ensures DestroysMediaOfOther(w, clip) <==>
      && clip.filePath in w.files
      && IsHeldByOther(w, clip.filePath, clip.clipId)
      && forall id :: id != clip.clipId && IsHeldBy(w, clip.filePath, id) ==> w.clips[id].eventId != clip.eventId
  {
    if id :| id != clip.clipId && IsHeldBy(w, clip.filePath, id) && w.clips[id].eventId == clip.eventId {
      assert IsSharedWithRetainedClip(w, clip);
    }
    if IsSharedWithRetainedClip(w, clip) {
      var id :| id in w.clips && w.clips[id].eventId == clip.eventId && w.clips[id].clipId != clip.clipId
        && w.clips[id].isRetained && w.clips[id].filePath == clip.filePath;
      assert IsHeldBy(w, clip.filePath, id);
    }
  }

  /** That case arises: the file of a locked clip is deleted. */
  lemma SharingCheckCanFail()
    ensures exists w: World, clip: MediaClip, locked: MediaClip ::
      && KeyedById(w) && clip in w.clips.Values && IsEligibleForPurge(clip)
      && IsHeldBy(w, clip.filePath, locked.clipId) && w.clips[locked.clipId].isLockedForAudit
      && DestroysMediaOfOther(w, clip)
  {
    var clip := MediaClip("a", "x", "f.mp4", true, false, 0);
    var locked := MediaClip("b", "y", "f.mp4", true, true, 0);
    var w := World(map["a" := clip, "b" := locked], map["f.mp4" := 1], []);
    assert clip.eventId[0] != locked.eventId[0] && "a"[0] != "b"[0];
    assert "a" in w.clips && w.clips["a"] == clip;
    assert IsHeldBy(w, "f.mp4", "b");
    SharingCheckFailsExactly(w, clip);
  }

  /** While one path belongs to one event, the check finds every clip that needs the file. */
  lemma SharedIsHeldByOther(w: World, clip: MediaClip)
    requires KeyedById(w) && OneEventPerPath(w) && clip.clipId in w.clips && w.clips[clip.clipId] == clip
    ensures IsSharedWithRetainedClip(w, clip) <==> IsHeldByOther(w, clip.filePath, clip.clipId)
  {
    if other :| other != clip.clipId && IsHeldBy(w, clip.filePath, other) {
      assert w.clips[other].eventId == clip.eventId;
    }
    if IsSharedWithRetainedClip(w, clip) {
      var id :| id in w.clips && w.clips[id].eventId == clip.eventId && w.clips[id].clipId != clip.clipId
        && w.clips[id].isRetained && w.clips[id].filePath == clip.filePath;
      assert IsHeldBy(w, clip.filePath, id);
    }
  }

  // ------------------------------------------------------- deletion safety

  lemma StillHeldByOther(w: World, v: World, p: Path, id: ClipId)
    requires IsHeldByOther(w, p, id) && forall other :: other != id && IsHeldBy(w, p, other) ==> IsHeldBy(v, p, other)
    ensures IsHeldByOther(v, p, id)
  {
    var keeper :| keeper != id && IsHeldBy(w, p, keeper);
    assert IsHeldBy(v, p, keeper);
  }

  /** id may be purged and is the only retained clip that names the file. */
  ghost predicate IsDisposable(w: World, p: Path, id: ClipId) {
    && IsPurgeable(w, id) && w.clips[id].filePath == p
    && forall other :: IsHeldBy(w, p, other) ==> other == id
  }

  lemma ReleaseIsSafe(s: System, t: System, id: ClipId)
    requires IsSafe(s) && ReleaseStep(s, t, id)
    ensures IsSafe(t)
    ensures forall p :: p in s.world.files && p !in t.world.files ==> IsDisposable(s.world, p, id)
  {
    var clip := s.world.clips[id];
    SharedIsHeldByOther(s.world, clip);
    if clip.filePath in t.world.files {
      StillHeldByOther(s.world, t.world, clip.filePath, id);
    }
  }

  /** Every step, of the purge or of anybody else, keeps the system safe; and a step deletes no file but
      that of an unlocked clip that no other retained clip, locked ones included, needs. */
  lemma StepIsSafe(s: System, t: System)
    requires IsSafe(s) && Step(s, t)
    ensures IsSafe(t)
    ensures forall p :: p in s.world.files && p !in t.world.files ==> exists id :: IsDisposable(s.world, p, id)
  {
    if id :| ReleaseStep(s, t, id) {
      ReleaseIsSafe(s, t, id);
    }
  }

  /** Deletion safety over whole runs: through any steps, failures, crashes and restarts. */
  lemma {:induction false} EveryRunIsSafe(run: seq<System>, i: nat)
    requires IsRun(run) && IsSafe(run[0]) && i < |run|
    ensures IsSafe(run[i])
    ensures i + 1 < |run| ==> forall p :: p in run[i].world.files && p !in run[i + 1].world.files ==>
      exists id :: IsDisposable(run[i].world, p, id)
  {
    if i > 0 {
      EveryRunIsSafe(run, i - 1);
      assert StepAt(run, i - 1);
      StepIsSafe(run[i - 1], run[i]);
    }
    if i + 1 < |run| {
      assert StepAt(run, i);
      StepIsSafe(run[i], run[i + 1]);
    }
  }

  /** A record stays under its own key, whoever steps. */
  lemma {:induction false} EveryRunKeepsKeys(run: seq<System>, i: nat)
    requires IsRun(run) && KeyedById(run[0].world) && i < |run|
    ensures KeyedById(run[i].world)
  {
    if i > 0 {
      EveryRunKeepsKeys(run, i - 1);
      assert StepAt(run, i - 1);
      StepKeepsKeys(run[i - 1], run[i]);
    }
  }

  lemma StepKeepsKeys(s: System, t: System)
    requires KeyedById(s.world) && Step(s, t)
    ensures KeyedById(t.world)
  {
  }

  // -------------------------------------------------------------- the log

  /** Each clip is logged at most once, and only when its record is marked. */
  ghost predicate LogIsSound(s: System) {
    && (forall i :: 0 <= i < |s.world.log| ==>
          s.world.log[i].clipId in s.world.clips && !s.world.clips[s.world.log[i].clipId].isRetained)
    && (forall i, j :: 0 <= i < j < |s.world.log| ==> s.world.log[i].clipId != s.world.log[j].clipId)
    && (s.phase.Marked? ==> forall i :: 0 <= i < |s.world.log| ==> s.world.log[i].clipId != s.phase.clip.clipId)
  }

  lemma StepKeepsLog(s: System, t: System)
    requires IsSafe(s) && LogIsSound(s) && Step(s, t)
    ensures LogIsSound(t)
  {
    if id :| ReleaseStep(s, t, id) {
    } else if MarkStep(s, t) {
      forall i | 0 <= i < |t.world.log| ensures t.world.log[i].clipId != s.phase.clip.clipId {
        assert !s.world.clips[s.world.log[i].clipId].isRetained;
      }
    }
  }

  lemma {:induction false} EveryRunKeepsLog(run: seq<System>, i: nat)
    requires IsRun(run) && IsSafe(run[0]) && LogIsSound(run[0]) && i < |run|
    ensures LogIsSound(run[i])
  {
    if i > 0 {
      EveryRunKeepsLog(run, i - 1);
      EveryRunIsSafe(run, i - 1);
      assert StepAt(run, i - 1);
      StepKeepsLog(run[i - 1], run[i]);
    }
  }

  // -------------------------------------------------------- stranded files

  /** A file that no retained record names: no sweep will ever find it. */
  ghost predicate IsStranded(w: World, p: Path) {
    p in w.files && !IsHeld(w, p)
  }

  /** The recorder writes a file that no retained record names. */
  ghost predicate WritesUnheld(s: System, t: System, p: Path) {
    !IsHeld(s.world, p) && exists sizeBytes :: WriteFileStep(s, t, p, sizeBytes)
  }

  ghost predicate SavesFor(s: System, t: System, p: Path) {
    exists clip: MediaClip :: clip.filePath == p && SaveRecordStep(s, t, clip)
  }

  lemma SameHolders(w: World, v: World, p: Path)
    requires forall id :: IsHeldBy(v, p, id) <==> IsHeldBy(w, p, id)
    ensures IsHeld(v, p) <==> IsHeld(w, p)
  {
    if id :| IsHeldBy(w, p, id) { assert IsHeldBy(v, p, id); }
    if id :| IsHeldBy(v, p, id) { assert IsHeldBy(w, p, id); }
  }

  /** The purge itself strands nothing: the file of the clip it marks is gone, or somebody else's too. */
  lemma MarkStrandsNothing(s: System, t: System, p: Path)
    requires IsSafe(s) && MarkStep(s, t)
    ensures IsStranded(t.world, p) <==> IsStranded(s.world, p)
  {
    var id := s.phase.clip.clipId;
    if p == s.phase.clip.filePath {
      assert IsHeldBy(s.world, p, id);
      if p in s.world.files {
        StillHeldByOther(s.world, t.world, p, id);
      }
    } else {
      SameHolders(s.world, t.world, p);
    }
  }

  lemma SaveTakesUp(s: System, t: System, p: Path, clip: MediaClip)
    requires SaveRecordStep(s, t, clip)
    ensures IsStranded(t.world, p) <==> IsStranded(s.world, p) && clip.filePath != p
  {
    if p == clip.filePath {
      assert IsHeldBy(t.world, p, clip.clipId);
    } else {
      SameHolders(s.world, t.world, p);
    }
  }

  /** A write strands its own file exactly when no retained record names it, and no other. */
  lemma WriteStrandsExactly(s: System, t: System, p: Path, sizeBytes: nat, q: Path)
    requires WriteFileStep(s, t, p, sizeBytes)
    ensures IsStranded(t.world, q) <==> IsStranded(s.world, q) || (q == p && !IsHeld(s.world, p))
  {
    SameHolders(s.world, t.world, q);
  }

  lemma OthersStrandNothing(s: System, t: System, p: Path)
    requires IsSafe(s)
    requires (exists id :: ReleaseStep(s, t, id)) || RecordStep(s, t) || AbortStep(s, t)
      || exists id, isLocked :: LockStep(s, t, id, isLocked)
    ensures IsStranded(t.world, p) <==> IsStranded(s.world, p)
  {
    SameHolders(s.world, t.world, p);
    if id :| ReleaseStep(s, t, id) {
      assert IsHeldBy(s.world, s.world.clips[id].filePath, id);
    }
  }

  /** No step both writes a file and saves a record. */
  lemma WritesAndSavesDiffer(s: System, t: System, p: Path)
    ensures SavesFor(s, t, p) ==> t.world.clips.Keys != s.world.clips.Keys
    ensures WritesUnheld(s, t, p) ==> t.world.clips == s.world.clips
  {
    if clip: MediaClip :| clip.filePath == p && SaveRecordStep(s, t, clip) {
      assert clip.clipId in t.world.clips;
    }
  }

  /** A file becomes stranded by a write to a path that nobody holds and by nothing else, and stays so
      until a record is saved for it. */
  lemma StepStrandsExactly(s: System, t: System, p: Path)
    requires IsSafe(s) && Step(s, t)
    ensures IsStranded(t.world, p) <==> (IsStranded(s.world, p) && !SavesFor(s, t, p)) || WritesUnheld(s, t, p)
  {
    WritesAndSavesDiffer(s, t, p);
    if clip: MediaClip :| SaveRecordStep(s, t, clip) {
      assert clip.clipId in t.world.clips;
      SaveTakesUp(s, t, p, clip);
    } else if q, sizeBytes :| WriteFileStep(s, t, q, sizeBytes) {
      WriteStrandsExactly(s, t, q, sizeBytes, p);
    } else if MarkStep(s, t) {
      assert t.world.clips.Keys == s.world.clips.Keys;
      MarkStrandsNothing(s, t, p);
    } else {
      assert t.world.clips.Keys == s.world.clips.Keys;
      OthersStrandNothing(s, t, p);
    }
  }

  ghost predicate UnsavedOver(run: seq<System>, from: nat, to: nat, p: Path)
    requires to < |run|
  {
    forall k :: from <= k < to ==> !SavesFor(run[k], run[k + 1], p)
  }

  /** Step k of the run wrote a file that nobody held, and no record was saved for it up to i. */
  ghost predicate IsUnsavedWrite(run: seq<System>, k: nat, i: nat, p: Path)
    requires i < |run|
  {
    k < i && WritesUnheld(run[k], run[k + 1], p) && UnsavedOver(run, k + 1, i, p)
  }

  /** Over whole runs, crashes included: the stranded files are those that were stranded at the beginning
      and those written while nobody held them, as long as no record was saved for them since. */
  lemma {:induction false} StrandedExactlyByUnsavedWrites(run: seq<System>, i: nat, p: Path)
    requires IsRun(run) && IsSafe(run[0]) && i < |run|
    ensures IsStranded(run[i].world, p) <==>
      (IsStranded(run[0].world, p) && UnsavedOver(run, 0, i, p)) || exists k :: IsUnsavedWrite(run, k, i, p)
  {
    if i > 0 {
      var n := i - 1;
      StrandedExactlyByUnsavedWrites(run, n, p);
      EveryRunIsSafe(run, n);
      assert StepAt(run, n);
      StepStrandsExactly(run[n], run[i], p);
      UnsavedWritesExtend(run, n, i, p);
    }
  }

  lemma UnsavedWritesExtend(run: seq<System>, n: nat, i: nat, p: Path)
    requires n + 1 == i < |run|
    ensures (exists k :: IsUnsavedWrite(run, k, i, p)) <==>
      WritesUnheld(run[n], run[i], p) || (!SavesFor(run[n], run[i], p) && exists k :: IsUnsavedWrite(run, k, n, p))
  {
    if WritesUnheld(run[n], run[i], p) {
      assert IsUnsavedWrite(run, n, i, p);
    }
    if k: nat :| IsUnsavedWrite(run, k, n, p) {
      if !SavesFor(run[n], run[i], p) {
        assert IsUnsavedWrite(run, k, i, p);
      }
    }
    if k: nat :| IsUnsavedWrite(run, k, i, p) {
      if k < n {
        assert IsUnsavedWrite(run, k, n, p);
      }
    }
  }

  /** It happens: an event is recorded that has no retained clip, and the service dies between the write of
      the file and the save of the record. */
  lemma CrashedRecordingStrandsItsFile(w: World, p: Path, sizeBytes: nat)
    requires KeyedById(w) && OneEventPerPath(w) && !IsHeld(w, p)
    ensures var written := System(w.(files := w.files[p := sizeBytes]), Idle);
      && IsRun([System(w, Idle), written, written]) && AbortStep(written, written)
      && IsSafe(written) && IsStranded(written.world, p)
  {
    var before, written := System(w, Idle), System(w.(files := w.files[p := sizeBytes]), Idle);
    var run := [before, written, written];
    assert WriteFileStep(before, written, p, sizeBytes);
    WriteStrandsExactly(before, written, p, sizeBytes, p);
    assert StepAt(run, 0) && StepAt(run, 1);
  }

  /** A new event will do, and so will one whose only clip was purged. */
  lemma CrashedRecordingCanStrand()
    ensures var unknown := World(map[], map[], []);
      IsStranded(unknown.(files := unknown.files["x.mp4" := 1]), "x.mp4")
    ensures var again := World(map["a" := MediaClip("a", "x", "x.mp4", false, false, 0)], map[], []);
      IsStranded(again.(files := again.files["x.mp4" := 1]), "x.mp4")
  {
    CrashedRecordingStrandsItsFile(World(map[], map[], []), "x.mp4", 1);
    var purged := MediaClip("a", "x", "x.mp4", false, false, 0);
    CrashedRecordingStrandsItsFile(World(map["a" := purged], map[], []), "x.mp4", 1);
  }
}
