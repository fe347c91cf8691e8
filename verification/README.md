# Verification of the media evidence core

This project models the logic at the centre of the S4 media-evidence service, with the zone polygon
check and the occupancy metric beside it, and proves what that logic is for.

- **Ring buffer** (`RingBuffer`, `SegmentSelection`, `RingBufferIndex`, `FrameArena`, `RingHistory`,
  `IngestAnswers`, `RetentionTightness`). Frames of any length are placed in a circular arena; a frame is never
  split, and only the front of the queue is ever evicted. The layout that makes this right, the agreement of
  index and bytes, the answer to every frame, a tight retention bound, and the honesty of the start flag against
  a list that never evicts are proved for every run. The index, the arena and the two use cases are classes
  whose fields and arrays change in place.
- **ISO-BMFF normaliser** (`IsoBmff`, `IsoBmffNormalizer`, `IsoBmffTree`). The walk rewrites, in the array it is
  reading, the date fields of the boxes of ISO/IEC 14496-12 sections 8.2.2 (mvhd), 8.3.2 (tkhd) and 8.4.2
  (mdhd). It is a refinement of a rewrite of the box tree, and its result is a canonical form.
- **Purge sweep** (`Retention`, `PurgeSelection`, `PurgeSweep`, `PurgeMedia`, `PurgeProtocol`, `PurgeCrash`,
  `PurgeAccounting`, `PurgeReporting`, `PurgeEntries`). The two selection strategies; the protocol of durable
  steps under failures, crashes, restarts, locks, file writes and new records; equality of the outcome after
  crashes; byte accounting; a report that is complete and true; a second sweep that is idle.
- **Mutex and condition-variable protocols** (`CaptureFacade`, `CaptureReading`, `CaptureWaiting`,
  `CaptureShutdown`, `PurgeDaemon`, `SweepDecisions`, `SweepWaiting`) as interleaved steps: every reader answered,
  no access after close, no lost wakeup, no lost request, sweeps exactly when due, orderly shutdown.
- **Frame log** (`FrameLog`, `FrameLogText`), **polygon validator** (`PolygonValidator`), **occupancy metric**
  (`PeakConcurrency`).
- `Sequences` (filters, stable sort) and `Outcomes` (options, results, bytes) are shared.

Each class method is proved against a function on values; the theorems are lemmas about those functions.
What comes from outside (frames, windows, clocks, which calls fail, the order in which a repository lists
its rows) is a parameter, so each theorem holds for all of it.

Where code and documentation disagree the model follows the code. The header of the normaliser says that
the whole container receives one sentinel (`iso_bmff_timestamps.hpp:31-34`); the code zeroes 64-bit dates
(`iso_bmff_timestamps.cpp:107-112`). The result is canonical all the same.

Three properties do not hold as one would wish, and the project says exactly when they do.

- The check whether a file is shared asks only the clips of one event. It lets the file of another retained
  clip be deleted exactly when all retained clips that share the file belong to other events
  (`PurgeProtocol.SharingCheckFailsExactly`); with one event per path that cannot be.
- A file may be left that no retained record names and that no sweep finds: exactly when the recorder writes
  to a path that no retained record names, of a new event or of one whose clips were purged, and its record is not
  saved, for which a crash between the two suffices (`PurgeProtocol.StrandedExactlyByUnsavedWrites`). The purge
  itself leaves none.
- The intersection test does not see segments on one line (`PolygonValidator.IntersectionTestIsExact`).

## Model

| member | source | states |
|---|---|---|
| RingBuffers.OccupiesIsSharing | mod2/s4-media-evidence/include/s4/domain/value_objects/frame_descriptor.hpp:28-33 | The overlap test of a non-empty frame is true exactly when some byte of the frame lies in the region |
| RingBuffers.LaidOutRegions | mod2/s4-media-evidence/src/domain/entities/ring_buffer.cpp:66-93 | What the layout is for: live regions are not empty, lie inside the arena, and any two are disjoint |
| RingBuffers.FrontSuffices | mod2/s4-media-evidence/src/domain/entities/ring_buffer.cpp:74-93 | Looking only at the front of the queue finds every frame anywhere in it that is left behind by a wrap or overwritten; a wrap always reaches into the current lap |
| RingBuffers.PopsMatchFilters | mod2/s4-media-evidence/src/domain/entities/ring_buffer.cpp:78-93 | Survivors and reported evictions, defined by examining every frame on its own, are exactly the rest and the middle part of the queue that the two popping loops leave and return |
| RingBuffers.WrapKeepsLayout | mod2/s4-media-evidence/src/domain/entities/ring_buffer.cpp:74-93 | After a wrap the survivors of the lap that just ended are the old lap, packed ahead of the write pointer, and the new frame starts a lap at 0 |
| RingBuffers.FitKeepsLayout | mod2/s4-media-evidence/src/domain/entities/ring_buffer.cpp:85-115 | A frame that fits shortens the old lap from its front only and extends the current lap |
| RingBuffers.PlacedLayout | mod2/s4-media-evidence/src/domain/entities/ring_buffer.cpp:66-115 | Old lap ahead of the write pointer, then the current lap packed from 0: kept by every allocation |
| RingBufferIndex.RingBuffer.Allocate | mod2/s4-media-evidence/src/domain/entities/ring_buffer.cpp:11-27 | New state and result are those of the specification, errors included; a rejected frame leaves the ring as it was; the layout is kept |
| RingBuffers.PopsMakeRoom | mod2/s4-media-evidence/src/domain/entities/ring_buffer.cpp:66-115 | Where the popping loops stop, registering the frame gives exactly the placed ring and the reported evictions, laid out anew |
| RingBufferIndex.RingBuffer.MakeRoom | mod2/s4-media-evidence/src/domain/entities/ring_buffer.cpp:66-93 | Both popping loops together: where they stop, what they counted and what they return |
| RingBufferIndex.RingBuffer.MakeRoomAndRegister | mod2/s4-media-evidence/src/domain/entities/ring_buffer.cpp:20-24 | Popping at the front and registering gives the state in which exactly the doomed frames are gone, and returns exactly the overwritten ones that no wrap discarded |
| RingBufferIndex.RingBuffer.SwitchSessionIfNeeded | mod2/s4-media-evidence/src/domain/entities/ring_buffer.cpp:41-55 | A new session empties the index, counts what it drops and rewinds; the first session does not; whenever it changes anything the index is empty |
| RingBufferIndex.RingBuffer.OffsetFor | mod2/s4-media-evidence/src/domain/entities/ring_buffer.cpp:66-72 | Offset, and how many frames at the front were discarded because they were left behind by the wrap |
| RingBufferIndex.RingBuffer.DiscardFramesBeyondWritePointer | mod2/s4-media-evidence/src/domain/entities/ring_buffer.cpp:78-83 | Drops the longest prefix at or beyond the write pointer and counts each frame |
| RingBufferIndex.RingBuffer.EvictOverlapping | mod2/s4-media-evidence/src/domain/entities/ring_buffer.cpp:85-93 | Drops the longest prefix that overlaps the region, in order, and counts each frame |
| RingBufferIndex.RingBuffer.RegisterFrame | mod2/s4-media-evidence/src/domain/entities/ring_buffer.cpp:95-115 | The new frame is the newest, the pointer stands at its end, both counters moved by one |
| RingBufferIndex.RingBuffer.SegmentFor | mod2/s4-media-evidence/src/domain/entities/ring_buffer.cpp:119-139 | Returns the answer of the specification, whose exactness is SegmentIsExact |
| RingBufferIndex.RingBuffer.IsWindowAbsent | mod2/s4-media-evidence/src/domain/entities/ring_buffer.cpp:141-154 | True exactly when no live frame is stamped inside the window |
| RingBufferIndex.RingBuffer.DecodableStartIndex | mod2/s4-media-evidence/src/domain/entities/ring_buffer.cpp:160-181 | The two search loops find the last keyframe at or before the start, or else the first inside the window, or nothing |
| RingBufferIndex.RingBuffer.LastIndexWithin | mod2/s4-media-evidence/src/domain/entities/ring_buffer.cpp:183-194 | The last frame at or before the end of the window |
| RingBufferIndex.RingBuffer.Stats | mod2/s4-media-evidence/src/domain/entities/ring_buffer.cpp:206-220 | Each field in terms of the index: first and last stamp (0 when empty), number and lengths of the live frames, both counters |
| SegmentSelection.SelectIsExact | mod2/s4-media-evidence/src/domain/entities/ring_buffer.cpp:119-194 | For stamps that never decrease: each error for its own reason and no other, and otherwise the returned run is the one and only run with the stated properties |
| SegmentSelection.SelectOnSuffix | mod2/s4-media-evidence/src/domain/entities/ring_buffer.cpp:119-194 | How the answer over the newest frames relates to the answer over all frames of the session: equal exactly when the keyframe the latter starts at is still there, and always when the start flag is clear |
| FrameArena.FrameStore.Write | mod2/s4-media-evidence/src/infrastructure/ringbuffer/shared_memory_frame_store.cpp:70-89 | Overlays the bytes; fails with the one error when closed, with the other when they would end beyond the arena, and then leaves the arena as it was |
| FrameArena.FrameStore.Read | mod2/s4-media-evidence/src/infrastructure/ringbuffer/shared_memory_frame_store.cpp:75-89 | The bytes of the region, or the error that closed or bounds call for |
| FrameArena.IngestFrameUseCase.Execute | mod2/s4-media-evidence/include/s4/application/use_cases/ingest_frame.hpp:20-26 | Index and arena together after allocate then write, and the result, are those of the specification |
| FrameArena.ExtractCaptureWindowUseCase.Execute | mod2/s4-media-evidence/include/s4/application/use_cases/extract_capture_window.hpp:21-35 | The copied segment, or the error of the ring or of the arena, is that of the specification |
| FrameArena.ExtractCaptureWindowUseCase.CopyAll | mod2/s4-media-evidence/include/s4/application/use_cases/extract_capture_window.hpp:30-33 | All frames in order, or the first error |
| FrameArena.ExtractCaptureWindowUseCase.Materialize | mod2/s4-media-evidence/include/s4/application/use_cases/extract_capture_window.hpp:38-45 | One frame with the bytes at its descriptor |
| RingHistory.SurvivorsKeepTheirBytes | mod2/s4-media-evidence/include/s4/application/use_cases/ingest_frame.hpp:20-26 | Writing the new frame changes no byte of a surviving one |
| RingHistory.IngestRelated | mod2/s4-media-evidence/include/s4/application/use_cases/ingest_frame.hpp:20-26 | One ingest keeps ring and never-evicting list related: they accept the same frames, and a rejected frame changes neither ring nor arena |
| IngestAnswers.AnswerIsRight | mod2/s4-media-evidence/src/domain/entities/ring_buffer.cpp:11-115 | The answer to one frame: too large exactly when it is empty or exceeds the arena, out of order exactly when its size is right and it is older than the newest accepted frame of its session, and otherwise accepted, with the session flag, place and evicted frames below |
| IngestAnswers.EveryAnswerIsRight | mod2/s4-media-evidence/src/domain/entities/ring_buffer.cpp:11-115 | The same after any run of ingests. Of an accepted frame the answer says that a session was restarted exactly when another was under way; its descriptor bears the number of frames accepted so far, stamp, keyframe flag and session of the frame, and stands at the write pointer, or at 0 when it would not fit; the evicted frames are those live ones, in order, that share a byte with it and were not left behind by a wrap, and the live ones afterwards are those that share none, and itself |
| RingHistory.ReachesStep | mod2/s4-media-evidence/src/domain/entities/ring_buffer.cpp:66-93 | How far the old lap reaches after one more frame, which is what the retention bound rests on |
| RingHistory.ArenaAgreement | mod2/s4-media-evidence/include/s4/application/use_cases/ingest_frame.hpp:20-26 | After any run of ingests: live regions lie inside the arena, are pairwise disjoint, and hold exactly the bytes ingested for their frames, which are the newest accepted ones |
| RingHistory.LiveIndexIsSuffix | mod2/s4-media-evidence/src/domain/entities/ring_buffer.cpp:41-115 | After any run: consecutive sequence numbers, one session, stored + evicted = ingested across wraps and session switches, and timestamps that never decrease over the whole session |
| RingHistory.LiveBytes | mod2/s4-media-evidence/src/domain/entities/ring_buffer.cpp:66-93 | Live bytes are the stretch of the old lap plus the current lap |
| RingHistory.RetentionBound | mod2/s4-media-evidence/src/domain/entities/ring_buffer.cpp:66-93 | Never more than the capacity; nothing dies before the first wrap of a session; from then on at least capacity - 2 L + 2 bytes are live, L being the longest frame of the session |
| RetentionTightness.BoundCanBeMet | mod2/s4-media-evidence/src/domain/entities/ring_buffer.cpp:66-93 | For every arena and longest frame with room for it, a run past its first wrap that leaves exactly capacity - 2 L + 2 live bytes |
| RetentionTightness.RetentionBoundIsTight | mod2/s4-media-evidence/src/domain/entities/ring_buffer.cpp:66-93 | Some run meets the retention bound with equality exactly when 3 L is at most capacity + 2 |
| RingHistory.SegmentIsExact | mod2/s4-media-evidence/src/domain/entities/ring_buffer.cpp:119-194 | On every run: which error exactly when, and otherwise a contiguous run from a keyframe to the last frame at or before the end with everything the window holds after its first frame, and exact truncation flags |
| RingHistory.StartFlagIsHonest | mod2/s4-media-evidence/include/s4/application/use_cases/extract_capture_window.hpp:21-35 | On every run: an extraction equals (timestamps, flags, sequence numbers, bytes) what a list of every frame accepted in the session gives exactly when the keyframe that list starts at is still live, and always when it is not flagged as truncated at the start; while that keyframe is live the window is always answered |
| RingHistory.LiveStartIsAnswered | mod2/s4-media-evidence/include/s4/application/use_cases/extract_capture_window.hpp:21-35 | A window whose full answer starts at a live keyframe is answered, and with exactly that answer |
| RingHistory.ExtractTellsTheTruth | mod2/s4-media-evidence/include/s4/application/use_cases/extract_capture_window.hpp:21-35 | An extraction in full: not in the buffer exactly when no live frame is stamped in the window, no decodable start exactly when one is but no live keyframe is stamped up to its end, and otherwise an honest copy; no other error |
| IsoBmff.DateByteIsInADateBox | mod2/s4-media-evidence/src/infrastructure/media/iso_bmff_timestamps.cpp:55-114 | A position is rewritten to a value exactly when it lies in the date fields of an mvhd, tkhd or mdhd box that is reached through moov, trak, mdia, edts and minf; box types, fields and values are written out as bytes |
| IsoBmff.TypesAreTheirBytes | mod2/s4-media-evidence/src/infrastructure/media/iso_bmff_timestamps.cpp:35-53 | The three tests of a box type accept the types written out as bytes and no others |
| IsoBmff.NormalizeWalksExactly | mod2/s4-media-evidence/src/infrastructure/media/iso_bmff_timestamps.cpp:118-136 | Every input of eight bytes or more whose bytes 4 to 8 spell ftyp, moov, styp, free, skip or wide is walked from its first to its last byte; every other input is returned as it is |
| IsoBmff.NormalizeRewritesDates | mod2/s4-media-evidence/src/infrastructure/media/iso_bmff_timestamps.cpp:118-136 | So of every input: which bytes of the result are rewritten and to what, all others being as before |
| IsoBmff.WalkIgnoresDates | mod2/s4-media-evidence/src/infrastructure/media/iso_bmff_timestamps.cpp:55-114 | The walk reads nothing it writes: whatever stands in the date fields, it rewrites the same positions to the same values |
| IsoBmff.NormalizeChangesOnlyDates | mod2/s4-media-evidence/src/infrastructure/media/iso_bmff_timestamps.cpp:118-136 | On any bytes the length is kept and no other position changes |
| IsoBmff.NormalizeTwiceIsOnce | mod2/s4-media-evidence/src/infrastructure/media/iso_bmff_timestamps.cpp:118-136 | Idempotent on any bytes |
| IsoBmff.NormalizeIsCanonical | mod2/s4-media-evidence/src/infrastructure/media/iso_bmff_timestamps.cpp:118-136 | Two containers normalise to the same bytes exactly when they have one length and differ in nothing but date positions of the walk |
| IsoBmffNormalizer.WriteBe32 | mod2/s4-media-evidence/src/infrastructure/media/iso_bmff_timestamps.cpp:28-33 | The four bytes read back as the value, no other byte changes |
| IsoBmffNormalizer.SetToZero | mod2/s4-media-evidence/src/infrastructure/media/iso_bmff_timestamps.cpp:108-112 | The bytes of the field are zero, no other byte changes |
| IsoBmffNormalizer.NormalizeBoxes | mod2/s4-media-evidence/src/infrastructure/media/iso_bmff_timestamps.cpp:55-75 | The loop that reads sizes from the array it is rewriting produces, byte by byte, what the walk over the original bytes prescribes |
| IsoBmffNormalizer.NormalizeBox | mod2/s4-media-evidence/src/infrastructure/media/iso_bmff_timestamps.cpp:77-114 | The same for one box, containers by recursion |
| IsoBmffNormalizer.RewriteDates | mod2/s4-media-evidence/src/infrastructure/media/iso_bmff_timestamps.cpp:88-113 | Both fields of a version 0 box get the sentinel, both of a version 1 box sixteen zeros, a box too short for them nothing |
| IsoBmffNormalizer.NormalizeIsoBmffTimestamps | mod2/s4-media-evidence/src/infrastructure/media/iso_bmff_timestamps.cpp:118-136 | The array in place against the specification, whose canonical form is NormalizeIsCanonical |
| IsoBmffTree.PatchIsRewrite | mod2/s4-media-evidence/src/infrastructure/media/iso_bmff_timestamps.cpp:77-114 | On the bytes of one well-formed box the walk is a rewrite of the box |
| IsoBmffTree.PatchAllIsRewriteAll | mod2/s4-media-evidence/src/infrastructure/media/iso_bmff_timestamps.cpp:55-75 | On the bytes of a list of well-formed boxes the walk is a rewrite of each |
| IsoBmffTree.NormalizeIsTreeRewrite | mod2/s4-media-evidence/src/infrastructure/media/iso_bmff_timestamps.cpp:53-136 | On a serialised box tree: the serialisation of the tree with its date fields rewritten, if the type of the first box is one of the six, and else the bytes themselves; first, branch and date types are told by their bytes |
| Sequences.StableSortIsStable | mod2/s4-media-evidence/src/domain/strategies/disk_quota_fifo_strategy.cpp:36-52 | Sorting by creation time gives a sorted permutation that keeps the given order among equals |
| Sequences.StableOrderIsUnique | mod2/s4-media-evidence/src/domain/strategies/disk_quota_fifo_strategy.cpp:36-52 | Sorted and stable leaves one order only |
| Retention.FreeingAddsUp | mod2/s4-media-evidence/include/s4/domain/value_objects/disk_usage.hpp:34-37 | Projecting clip by clip is projecting the total |
| Retention.ExceededIsNotSatisfied | mod2/s4-media-evidence/include/s4/domain/value_objects/quota_policy.hpp:10-38 | Hysteresis: a volume below the target is not at the trigger |
| Retention.QuotaCutIsUnique | mod2/s4-media-evidence/src/domain/strategies/disk_quota_fifo_strategy.cpp:56-70 | There is one shortest prefix that reaches the target |
| Retention.QuotaSelectionIsShortestPrefix | mod2/s4-media-evidence/src/domain/strategies/disk_quota_fifo_strategy.cpp:19-70 | The selection is the shortest non-empty prefix of the eligible clips in stable oldest-first order that is projected below the target, or all of them; nothing below the trigger; the alert exactly when nothing is eligible |
| Retention.LgpdRetentionStrategy.SelectClipsToPurge | mod2/s4-media-evidence/src/domain/strategies/lgpd_retention_strategy.cpp:5-16 | The selection of the specification, whose meaning is LgpdSelectsTheDue |
| PurgeSelection.KindIsByExtension | mod2/s4-media-evidence/include/s4/domain/value_objects/retention_policy.hpp:19-29 | A path names a snapshot exactly when it is a stem, a dot and jpg, jpeg or png, each letter in either case |
| PurgeSelection.LgpdSelectsTheDue | mod2/s4-media-evidence/src/domain/strategies/lgpd_retention_strategy.cpp:5-16 | A candidate is selected exactly when its clip is retained, not locked, and creation plus term is not after now, the term being that of snapshots for such a path and that of clips for any other; in order, each as often as it is a candidate, and never with an alert |
| PurgeSelection.SelectionGrowsWithTime | mod2/s4-media-evidence/include/s4/domain/value_objects/retention_policy.hpp:56-58 | Who is selected at one instant is selected at every later one, and nobody is while younger than both terms |
| PurgeSelection.QuotaSelectsInBytes | mod2/s4-media-evidence/src/domain/strategies/disk_quota_fifo_strategy.cpp:19-70 | In bytes and shares of the capacity: nothing while the use is less than the trigger share; from then on the alert exactly when every candidate is gone or locked, and else the shortest non-empty front of the others, oldest first, whose sizes bring the use under the target share, or all of them |
| Retention.DiskQuotaFifoStrategy.SelectClipsToPurge | mod2/s4-media-evidence/src/domain/strategies/disk_quota_fifo_strategy.cpp:19-34 | Selection or alert, as QuotaSelectionIsShortestPrefix describes it |
| Retention.DiskQuotaFifoStrategy.EligibleOldestFirst | mod2/s4-media-evidence/src/domain/strategies/disk_quota_fifo_strategy.cpp:38-52 | The eligible candidates in stable oldest-first order |
| Retention.DiskQuotaFifoStrategy.TakeUntilTargetIsReached | mod2/s4-media-evidence/src/domain/strategies/disk_quota_fifo_strategy.cpp:56-70 | The loop stops at the one shortest prefix |
| PurgeMedia.ClipRepository.FindByEventId | mod2/s4-media-evidence/include/s4/infrastructure/database/in_memory_media_clip_repository.hpp:25-34 | Exactly the records of the event |
| PurgeMedia.ClipRepository.FindPurgeCandidates | mod2/s4-media-evidence/include/s4/infrastructure/database/in_memory_media_clip_repository.hpp:36-45 | Exactly the retained and unlocked records, each once, in any order |
| PurgeMedia.MediaVolume.CurrentUsage | mod2/s4-media-evidence/tests/unit/fakes/retention_fakes.hpp:67-73 | Use is what others use plus the sizes of all files |
| PurgeMedia.PurgeMediaUseCase.CatchUp | mod2/s4-media-evidence/src/application/use_cases/purge_media.cpp:102-110 | What others did since the last sweep, as steps of the protocol, is added to the history; then sweeps can go on |
| PurgeMedia.PurgeMediaUseCase.LoadCandidates | mod2/s4-media-evidence/src/application/use_cases/purge_media.cpp:68-75 | Every purgeable record once, with its measured size |
| PurgeMedia.PurgeMediaUseCase.MeasuredSize | mod2/s4-media-evidence/src/application/use_cases/purge_media.cpp:79-85 | A missing or unreadable file weighs nothing |
| PurgeMedia.PurgeMediaUseCase.IsFileSharedWithRetainedClip | mod2/s4-media-evidence/src/application/use_cases/purge_media.cpp:143-151 | True exactly when another retained record of the event names the file |
| PurgeMedia.PurgeMediaUseCase.ReleaseFile | mod2/s4-media-evidence/src/application/use_cases/purge_media.cpp:129-138 | Deleted, missing already or kept for another clip; a failed call changes nothing |
| PurgeMedia.PurgeMediaUseCase.Purge | mod2/s4-media-evidence/src/application/use_cases/purge_media.cpp:102-127 | State and report are those of the specification, and the durable states passed on the way extend a run of the protocol |
| PurgeMedia.PurgeMediaUseCase.TakeSteps | mod2/s4-media-evidence/src/application/use_cases/purge_media.cpp:108-163 | The same one step at a time, with each failure where it can happen |
| PurgeMedia.PurgeMediaUseCase.RemoveCandidate | mod2/s4-media-evidence/src/application/use_cases/purge_media.cpp:13-20 | The other candidates in order |
| PurgeMedia.PurgeMediaUseCase.PurgeSelected | mod2/s4-media-evidence/src/application/use_cases/purge_media.cpp:96-99 | The selected clips one after another; every state on the way belongs to a run of the protocol |
| PurgeMedia.PurgeMediaUseCase.ApplyStrategy | mod2/s4-media-evidence/src/application/use_cases/purge_media.cpp:89-100 | One strategy on the disk as it is then |
| PurgeMedia.PurgeMediaUseCase.ApplyStrategies | mod2/s4-media-evidence/src/application/use_cases/purge_media.cpp:61-63 | The strategies in order; an alert ends the sweep |
| PurgeMedia.PurgeMediaUseCase.Execute | mod2/s4-media-evidence/src/application/use_cases/purge_media.cpp:57-66 | A whole sweep against the specification, over some listing of the purgeable records; its trace stays a run of the protocol |
| PurgeProtocol.SharingCheckFailsExactly | mod2/s4-media-evidence/src/application/use_cases/purge_media.cpp:129-151 | For every clip: purging it deletes a file that another retained clip holds exactly when the file exists, others hold it, and all of those belong to other events |
| PurgeProtocol.SharingCheckCanFail | mod2/s4-media-evidence/src/application/use_cases/purge_media.cpp:140-151 | A world in which that happens: the file of a locked clip of another event is deleted |
| PurgeProtocol.SharedIsHeldByOther | mod2/s4-media-evidence/src/application/use_cases/purge_media.cpp:140-151 | While one path belongs to one event, asking only the clips of the event finds every retained clip that needs the file |
| PurgeProtocol.ReleaseIsSafe | mod2/s4-media-evidence/src/application/use_cases/purge_media.cpp:129-138 | With one event per path, deleting the file keeps the system safe, and no other retained clip needed the file |
| PurgeProtocol.StepIsSafe | mod2/s4-media-evidence/src/application/use_cases/purge_media.cpp:102-163 | Every step of the purge, every failure, crash and restart, every lock, file write and saved record in between keeps the system safe, and deletes no file but that of an unlocked clip which no other retained clip needs |
| PurgeProtocol.EveryRunIsSafe | mod2/s4-media-evidence/src/application/use_cases/purge_media.cpp:102-163 | So over every run: no file of another retained clip is deleted, locked ones included |
| PurgeProtocol.EveryRunKeepsLog | mod2/s4-media-evidence/src/application/use_cases/purge_media.cpp:155-163 | Over every run that begins so, each clip is logged once at most, and only after its record is marked |
| PurgeProtocol.MarkStrandsNothing | mod2/s4-media-evidence/src/application/use_cases/purge_media.cpp:115-119 | Marking a record leaves no file behind that no retained record names |
| PurgeProtocol.WriteStrandsExactly | mod2/s4-media-evidence/src/application/use_cases/extract_clip.cpp:65 | A file write leaves such a file exactly when no retained record names its path, and no other file |
| PurgeProtocol.SaveTakesUp | mod2/s4-media-evidence/src/application/use_cases/extract_clip.cpp:68-69 | Saving a record for the file takes it up again, and no other |
| PurgeProtocol.StepStrandsExactly | mod2/s4-media-evidence/src/application/use_cases/purge_media.cpp:102-163 | Of all steps only such a write strands a file, and only a saved record ends that |
| PurgeProtocol.StrandedExactlyByUnsavedWrites | mod2/s4-media-evidence/src/application/use_cases/purge_media.cpp:102-163 | Over every run, crashes included: the files no retained record names are exactly those that were so at the beginning and those written to a path that no retained record names, with no record saved for them since |
| PurgeProtocol.CrashedRecordingStrandsItsFile | mod2/s4-media-evidence/src/application/use_cases/extract_clip.cpp:65-69 | From any world and for any path that no retained record names: the service writes the file, dies before the save, and the file is stranded |
| PurgeProtocol.CrashedRecordingCanStrand | mod2/s4-media-evidence/src/application/use_cases/extract_clip.cpp:65-69 | It happens to a new event and to one that was purged before |
| PurgeCrash.PurgeTakesSteps | mod2/s4-media-evidence/src/application/use_cases/purge_media.cpp:102-163 | The purge of a clip, with any failures, goes step by step through the protocol and ends where the specification says |
| PurgeCrash.PurgeFollowsProtocol | mod2/s4-media-evidence/src/application/use_cases/purge_media.cpp:102-163 | So it is a run of that protocol |
| PurgeCrash.LgpdStepKeepsBound | mod2/s4-media-evidence/src/application/use_cases/purge_media.cpp:102-138 | No step of an LGPD purge, finished, failed or cut off, changes which records and files are left in the end |
| PurgeCrash.CompleteSweepSettles | mod2/s4-media-evidence/src/application/use_cases/purge_media.cpp:57-138 | With one event per path, a failure-free LGPD sweep marks every doomed clip and deletes exactly the files that only doomed clips hold |
| PurgeCrash.CrashesLeaveNoTrace | mod2/s4-media-evidence/src/application/use_cases/purge_media.cpp:57-138 | With one event per path, after any number of crashed and failed LGPD sweeps, one complete sweep at the same instant leaves the files and records that one uninterrupted sweep leaves |
| PurgeCrash.CrashThenRerun | mod2/s4-media-evidence/src/application/use_cases/purge_media.cpp:57-138 | The case of one sweep, with any failures, that crashes after any of its durable steps |
| PurgeAccounting.BytesAreConserved | mod2/s4-media-evidence/src/application/use_cases/purge_media.cpp:57-138 | For any strategies and failures: the bytes the volume lost are exactly those the report counts and those of the files that are gone unreported; a file goes unreported only when the update of its clip failed or its size could not be read |
| PurgeAccounting.FaultlessSweepConserves | mod2/s4-media-evidence/include/s4/application/dtos/purge_report.hpp:33-39 | Without such failures the report counts every byte, shared and missing files included |
| PurgeAccounting.PurgeConservesExactly | mod2/s4-media-evidence/src/application/use_cases/purge_media.cpp:115-126 | One purge is conservative exactly unless its update fails after a file with bytes in it was deleted |
| PurgeAccounting.StrategyFreesSizes | mod2/s4-media-evidence/src/application/use_cases/purge_media.cpp:89-100 | With one file per retained clip and no failures the volume shrinks by the measured sizes of the selected clips |
| PurgeAccounting.ProjectionIsReal | mod2/s4-media-evidence/include/s4/domain/value_objects/disk_usage.hpp:32-37 | The usage a selection was projected to is the usage the volume then shows |
| PurgeAccounting.QuotaSettles | mod2/s4-media-evidence/src/domain/strategies/disk_quota_fifo_strategy.cpp:19-70 | After the quota strategy the volume is below the trigger or nothing purgeable is left |
| PurgeAccounting.LgpdSettles | mod2/s4-media-evidence/src/domain/strategies/lgpd_retention_strategy.cpp:5-16 | After the LGPD strategy no clip is left whose term is over and that nothing protects |
| PurgeAccounting.StrategiesSettle | mod2/s4-media-evidence/src/application/use_cases/purge_media.cpp:57-100 | After any list of strategies each of them has nothing left to do; after an alert nothing purgeable is left |
| PurgeAccounting.SecondSweepIsIdle | mod2/s4-media-evidence/src/application/use_cases/purge_media.cpp:57-100 | With one file per retained clip, readable sizes, no failures and a clock that stands still, a second sweep with the same strategies, whichever they are, changes nothing and reports no purge; it may only raise the alert |
| PurgeReporting.SelectionIsTold | mod2/s4-media-evidence/src/application/use_cases/purge_media.cpp:96-127 | Whatever was selected from whatever records and whatever fails: each selected clip is reported once, as purged exactly when its record was marked, as failed exactly when it could be purged and still can, and skipped exactly when it could not be; nothing else is reported, and the log grows by the entries whose logging works, in order |
| PurgeReporting.ReportIsComplete | mod2/s4-media-evidence/src/application/use_cases/purge_media.cpp:57-163 | The same over a whole sweep, any strategies, any failures and up to an alert: every clip taken in hand is in the report once and none is skipped, and the entries that missed the log are those it shows as not logged |
| PurgeEntries.OnePurgeIsTold | mod2/s4-media-evidence/src/application/use_cases/purge_media.cpp:102-163 | The purge of one clip in full: skipped exactly when it is gone, purged or locked; failed exactly when a call that is made fails, and what that leaves of the files; else marked, its file gone unless another retained clip of the event names it, with an entry that gives id, event, path, reason, instant, used share, outcome and bytes as they were |
| PurgeEntries.EntriesAreTrue | mod2/s4-media-evidence/src/application/use_cases/purge_media.cpp:57-163 | Over a whole sweep, any strategies and any failures: every reported entry is true of the worlds before and after, bears the reason, instant and used share of the strategy that was at work, and under LGPD the term was over; the report says when the sweep began |
| PurgeEntries.ReasonsAreExact | mod2/s4-media-evidence/src/main.cpp:96-99 | With the two strategies in the order of the service, an entry says that the term expired exactly when it was over, and else that the quota was exceeded |
| PurgeEntries.LgpdSweepMarksTheDue | mod2/s4-media-evidence/src/application/use_cases/purge_media.cpp:57-66 | A whole LGPD sweep marks no clip whose term is not over, whatever fails, and every one that may be purged and whose term is over when nothing fails |
| CaptureFacade.IngestOutcome | mod2/s4-media-evidence/src/infrastructure/gstreamer/ring_buffer_ram_facade.cpp:74-97 | In any reachable state a frame is accepted, or rejected by the ring with the buffer unchanged; the arena never refuses it |
| CaptureFacade.NextKeepsInv | mod2/s4-media-evidence/src/infrastructure/gstreamer/ring_buffer_ram_facade.cpp:52-97 | Every step of source, stop caller or reader keeps mutex, flag, arena and wakeup invariants |
| CaptureFacade.ArenaIsNeverTouchedAfterClose | mod2/s4-media-evidence/src/infrastructure/gstreamer/ring_buffer_ram_facade.cpp:52-70 | In every interleaving the arena is neither written nor read after it is closed, no arena error escapes from the callback, and none reaches a reader |
| CaptureFacade.NoWakeupIsLost | mod2/s4-media-evidence/src/infrastructure/gstreamer/ring_buffer_ram_facade.cpp:171-192 | In every interleaving a reader that sleeps though it may proceed is owed a notification by the source or the stop caller |
| CaptureFacade.EveryReaderIsToldTheTruth | mod2/s4-media-evidence/src/infrastructure/gstreamer/ring_buffer_ram_facade.cpp:132-192 | In every interleaving what a reader is given, error or copy, is the truth in the sense of ExtractTellsTheTruth, measured against all frames passed on by then |
| CaptureReading.EveryFrameIsPassedOn | mod2/s4-media-evidence/src/infrastructure/gstreamer/ring_buffer_ram_facade.cpp:74-97 | In every interleaving, whenever no callback is under way the buffer is what ingesting every delivered frame, one by one and in order, makes of an empty one |
| CaptureReading.CallbackEnds | mod2/s4-media-evidence/src/infrastructure/gstreamer/ring_buffer_ram_facade.cpp:74-97 | A callback ends after four steps of its own, and nobody lengthens it |
| CaptureReading.NobodyIsTurnedAway | mod2/s4-media-evidence/src/infrastructure/gstreamer/ring_buffer_ram_facade.cpp:132-192 | In every interleaving a reader that leaves without an answer does so because the capture was stopped |
| CaptureReading.EndIsOfNewest | mod2/s4-media-evidence/src/infrastructure/gstreamer/ring_buffer_ram_facade.cpp:190-192 | The newest frame alone tells whether any live frame is stamped at the end of the window or later |
| CaptureReading.SleepsOnlyForTheFuture | mod2/s4-media-evidence/src/infrastructure/gstreamer/ring_buffer_ram_facade.cpp:171-182 | In every interleaving a reader falls asleep only if it waits, while the capture runs and no live frame is stamped at the end of its window or later |
| CaptureReading.EveryReaderIsAnswered | mod2/s4-media-evidence/src/infrastructure/gstreamer/ring_buffer_ram_facade.cpp:132-192 | In every interleaving, while the capture runs, a reader that does not wait has its answer after three steps of its own, and one that waits after five, once the end of its window is live or its time is up |
| CaptureReading.NothingIsRuledOut | mod2/s4-media-evidence/src/infrastructure/gstreamer/ring_buffer_ram_facade.cpp:74-192 | While the capture runs the source at rest may deliver any frame, any reader may come with any window, and the time of a sleeper may be up |
| CaptureReading.NobodyIsStuck | mod2/s4-media-evidence/src/infrastructure/gstreamer/ring_buffer_ram_facade.cpp:74-192 | In every interleaving a callback under way and a reader that is awake can take their next step, or the holder of the mutex can |
| CaptureWaiting.TruncatedEndMeansTimeout | mod2/s4-media-evidence/src/infrastructure/gstreamer/ring_buffer_ram_facade.cpp:132-192 | In every interleaving a reader that waited and whose copy is flagged as truncated at the end has run out of time |
| CaptureShutdown.NobodySleepsOnceTold | mod2/s4-media-evidence/src/infrastructure/gstreamer/ring_buffer_ram_facade.cpp:52-64 | In every interleaving, once stopCapture has notified, no reader sleeps |
| CaptureShutdown.EveryReaderLeaves | mod2/s4-media-evidence/src/infrastructure/gstreamer/ring_buffer_ram_facade.cpp:171-188 | From then on every reader leaves within four steps of its own and never sleeps again |
| CaptureShutdown.StopReturns | mod2/s4-media-evidence/src/infrastructure/gstreamer/ring_buffer_ram_facade.cpp:52-70 | stopCapture returns after eight steps of its own, and by then the arena is closed and the source at rest |
| CaptureShutdown.StopIsNeverStuck | mod2/s4-media-evidence/src/infrastructure/gstreamer/ring_buffer_ram_facade.cpp:52-70 | Until it returns, it can take its next step, or the holder of the mutex can, or the callback of the source it waits for can |
| CaptureShutdown.ReaderIsNeverStuck | mod2/s4-media-evidence/src/infrastructure/gstreamer/ring_buffer_ram_facade.cpp:171-188 | And a reader that has not left can take its next step, or the holder of the mutex can |
| PurgeDaemon.RequestIsMarked | mod2/s4-media-evidence/src/infrastructure/retention/purge_daemon.cpp:75-81 | A request sets a mark that nothing but the beginning of a sweep clears |
| PurgeDaemon.NextKeepsInv | mod2/s4-media-evidence/src/infrastructure/retention/purge_daemon.cpp:51-113 | Every step of daemon, requesters, waiters and stop caller keeps the invariants |
| PurgeDaemon.NoWakeupIsLost | mod2/s4-media-evidence/src/infrastructure/retention/purge_daemon.cpp:60-113 | In every interleaving a daemon that sleeps though a request or a stop waits is owed a notification |
| PurgeDaemon.EveryRequestIsServed | mod2/s4-media-evidence/src/infrastructure/retention/purge_daemon.cpp:75-113 | In every interleaving, once a request is made a sweep begins before the daemon has made nine more moves, unless stop is requested first; being woken by notify_all counts as one, waking unasked as none |
| PurgeDaemon.StopIsOrderly | mod2/s4-media-evidence/src/infrastructure/retention/purge_daemon.cpp:60-113 | After stop is requested at most one more sweep begins, the daemon ends within nine of its moves (counted likewise), and stop does not return before it has ended |
| PurgeDaemon.SomebodyCanMove | mod2/s4-media-evidence/src/infrastructure/retention/purge_daemon.cpp:97-113 | With work to do the daemon is never stuck and needs no chance wakeup: it can move, or another thread can step towards unlocking the mutex, or the notify_all that wakes it can be called |
| SweepDecisions.EverySweepIsCounted | mod2/s4-media-evidence/src/infrastructure/retention/purge_daemon.cpp:97-113 | In every interleaving every sweep that begins is counted once, when it is finished, and the daemon never waits before it has swept |
| SweepDecisions.SweepsExactlyWhenDue | mod2/s4-media-evidence/src/infrastructure/retention/purge_daemon.cpp:117-124 | In every interleaving the decision begins a sweep exactly when a request was taken, no sweep was completed yet, the interval is over or the disk is at the trigger |
| SweepDecisions.NoSweepWithoutReason | mod2/s4-media-evidence/src/infrastructure/retention/purge_daemon.cpp:97-124 | In every interleaving, since the daemon was last known to be unasked and while nobody asks, a sweep begins only because none was completed yet, the interval is over or the disk is at the trigger |
| SweepDecisions.RoundSpendsRequests | mod2/s4-media-evidence/src/infrastructure/retention/purge_daemon.cpp:101-104 | A round spends the requests it finds: unless somebody asks again, a sweep of a later round has another reason |
| SweepDecisions.DueSweepBegins | mod2/s4-media-evidence/src/infrastructure/retention/purge_daemon.cpp:97-124 | In every interleaving, without anybody asking: once the daemon has started or its time to wait is up, a sweep that is due and stays so begins within four moves of the daemon, unless stop is requested first |
| SweepDecisions.NothingIsRuledOut | mod2/s4-media-evidence/src/infrastructure/retention/purge_daemon.cpp:51-124 | In any state interval and disk may change in any way, anybody may ask or wait, stop may be called, and the time of whoever sleeps may be up |
| SweepWaiting.NoSweepGoesUnnoticed | mod2/s4-media-evidence/src/infrastructure/retention/purge_daemon.cpp:90-93 | In every interleaving a caller of waitForSweeps that sleeps though enough sweeps are completed is woken by the very next step of the daemon, which nothing can hold back |
| SweepWaiting.AnswersAreTrue | mod2/s4-media-evidence/src/infrastructure/retention/purge_daemon.cpp:90-93 | In every interleaving the answer says whether enough sweeps are completed; a true one stays true, and a false one is given only to a caller whose time is up |
| SweepWaiting.EveryWaiterIsAnswered | mod2/s4-media-evidence/src/infrastructure/retention/purge_daemon.cpp:90-93 | In every interleaving, once enough sweeps are completed a caller of waitForSweeps has its answer after four steps of its own |
| FrameLog.LoadedEntriesAreSound | mod2/s4-media-evidence/src/infrastructure/ringbuffer/frame_log.cpp:116-142 | Whatever text is loaded, every entry is a non-empty slice inside the blob |
| FrameLogText.LineIsWritten | mod2/s4-media-evidence/src/infrastructure/ringbuffer/frame_log.cpp:32-38 | The line of a frame: instant with a minus sign if negative, offset, length, 1 or 0, session, in decimals without leading zeros and with single blanks |
| FrameLogText.ReadNumberIsExact | mod2/s4-media-evidence/src/infrastructure/ringbuffer/frame_log.cpp:127-130 | Reading a number succeeds exactly when the text is white space, perhaps a sign, at least one digit, and something that does not begin with one; it gives that sign, value and remainder |
| FrameLogText.ParsedLineIsExact | mod2/s4-media-evidence/src/infrastructure/ringbuffer/frame_log.cpp:123-140 | A line gives an entry exactly when it describes it: four numbers that fit their types, perhaps a word, and a non-empty slice inside the blob; any other line is reported |
| FrameLogText.TextSplits | mod2/s4-media-evidence/src/infrastructure/ringbuffer/frame_log.cpp:123-126 | Splitting finds the non-empty lines, one behind the last newline included |
| FrameLogText.LoadIsExact | mod2/s4-media-evidence/src/infrastructure/ringbuffer/frame_log.cpp:116-142 | Any text loads to the entries its non-empty lines describe, in order, or fails with the first line that describes none |
| FrameLogText.ReplayKeepsFrames | mod2/s4-media-evidence/src/infrastructure/ringbuffer/frame_log.cpp:91-114 | Replaying what was recorded gives every frame back, with the session that was asked for if one was, and else with its own |
| FrameLog.LineReadsBack | mod2/s4-media-evidence/src/infrastructure/ringbuffer/frame_log.cpp:127-132 | The five fields of a printed line parse to themselves over the whole range of their types |
| FrameLog.JoinedSplits | mod2/s4-media-evidence/src/infrastructure/ringbuffer/frame_log.cpp:123-126 | Splitting at newlines undoes joining, from every line on |
| FrameLog.RecordingRoundTrips | mod2/s4-media-evidence/src/infrastructure/ringbuffer/frame_log.cpp:32-142 | Recording, loading and replaying gives the frames back exactly when no frame is empty and no session holds white space |
| FrameLog.FrameLogRecorder.Record | mod2/s4-media-evidence/src/infrastructure/ringbuffer/frame_log.cpp:32-38 | Index and blob are those of the frames recorded so far and the new one |
| FrameLog.RecordedFrameSource.LoadIndex | mod2/s4-media-evidence/src/infrastructure/ringbuffer/frame_log.cpp:116-142 | The line loop computes what splitting and parsing the whole text gives, its error included |
| FrameLog.RecordedFrameSource.Replay | mod2/s4-media-evidence/src/infrastructure/ringbuffer/frame_log.cpp:91-114 | The frames of the entries in order, up to where the stop was noticed |
| PolygonValidator.IntersectionTestIsExact | mod2/b6-zone-editor/b6_zone_editor.ts:69-83 | For all real points: true exactly when the closed segments share a point and the second does not lie on the line of the first |
| PolygonValidator.OverlapOnOneLineIsNotSeen | mod2/b6-zone-editor/b6_zone_editor.ts:69-77 | On one line the test is blind: no segment is seen to meet itself |
| PolygonValidator.IntersectionIsSymmetric | mod2/b6-zone-editor/b6_zone_editor.ts:69-77 | The answer does not depend on which segment is named first or from which end |
| PolygonValidator.IsValidPolygon | mod2/b6-zone-editor/b6_zone_editor.ts:47-67 | The two loops over pairs decide whether any two edges that are not neighbours cross |
| PolygonValidator.VerdictIgnoresStart | mod2/b6-zone-editor/b6_zone_editor.ts:47-67 | The verdict is the same for every rotation of the vertex list |
| PolygonValidator.VerdictIgnoresDirection | mod2/b6-zone-editor/b6_zone_editor.ts:47-67 | And for its reversal |
| PolygonValidator.ValidMeansNoCrossing | mod2/b6-zone-editor/b6_zone_editor.ts:47-83 | An outline is accepted exactly when no two edges without a common vertex share a point, edges on one line aside; all written out in coordinates and indices |
| PolygonValidator.DoubledEdgeIsAccepted | mod2/b6-zone-editor/b6_zone_editor.ts:47-77 | So an outline that runs back and forth over one edge is accepted, though its edges coincide |
| PeakConcurrency.Peak | s5/src/domain/services/aggregation_strategy.py:53-62 | The running sum over the sorted marks returns the peak |
| PeakConcurrency.SortPutsEntriesFirst | s5/src/domain/services/aggregation_strategy.py:54-55 | Ties come out entries first, because the sort is stable |
| PeakConcurrency.TimesAreOfKind | s5/src/domain/services/aggregation_strategy.py:27-32 | The instants of a kind of event, each as often as there are such events at it |
| PeakConcurrency.SweepFindsPeak | s5/src/domain/services/aggregation_strategy.py:53-62 | For any lists, ties and unmatched exits included: no instant has more entries at or before it less exits before it than the peak, and an entry instant reaches it unless it is 0 |
| PeakConcurrency.Aggregate | s5/src/domain/services/aggregation_strategy.py:24-40 | Average, peak and count; refused exactly when the average is negative |
| PeakConcurrency.AverageIsOverPairs | s5/src/domain/services/aggregation_strategy.py:43-50 | For any two lists: the mean difference of the first exits and first entries, as many as there are of both, and 0 when one list is empty |
| PeakConcurrency.AverageIsTheMeanStay | s5/src/domain/services/aggregation_strategy.py:43-50 | When every visit has both ends in the window, pairing by rank gives the true mean stay, in whatever order the events come |
| PeakConcurrency.PeakIsTheMostPresent | s5/src/domain/services/aggregation_strategy.py:53-62 | And the peak is the largest number of visits under way at one instant |

## Left out

- CaptureFacade: the object is a state machine over values, one step between two points where another thread may run, not a class; a class method cannot be interrupted in Dafny. The clock bridge, the rejected-frame counter, the wall-clock conversions and a restart after stop are not part of it; the source is taken to make no callback after its stop has returned.
- PurgeDaemon: likewise a state machine over values. Whether the retention interval is over and whether the disk is at the trigger are two observations that may change at any time, a failing disk check being one that finds it is not; a restart after stop is not modelled.
- RingBufferIndex.RingBuffer.Allocate: `size_t` and `uint64_t` are unbounded, so `m_writeOffset + length` cannot wrap around; timestamps are unbounded integers. `Allocation.evicted` lists the frames popped by the overlap loop only, as in the code: discards of a wrap and of a session switch appear in the counters alone.
- RingHistory.StartFlagIsHonest: of several frames stamped exactly at the start of the window, those before the chosen keyframe are not returned, by the list that never evicts no more than by the ring.
- Capture windows are given as two integers: `CaptureWindow::around`, capacity sizing and the derived ratios of `BufferStats` are left out.
- FrameArena.FrameStore.Write: the shared-memory segment is an array with a closed flag; creating, mapping and unlinking it are left out.
- IsoBmff.DateByteIsInADateBox: says which boxes the walk reaches; a size field of 0, 1 or any malformed value ends a level of the walk, so a date box behind it is not rewritten.
- IsoBmffTree.NormalizeIsTreeRewrite: trees whose boxes all have 32-bit sizes; contents of other boxes are bytes.
- Retention.DiskQuotaFifoStrategy.SelectClipsToPurge: ratios are exact reals where the code has doubles; the alert's text is left out.
- Retention.DiskQuotaFifoStrategy.EligibleOldestFirst: `std::stable_sort` is the stable insertion sort of `Sequences`, on values; its in-place moves are not modelled.
- PurgeMedia.PurgeMediaUseCase.Purge: a call that fails is named by its clip and fails throughout the sweep; `findById` failures, which abort the sweep, and a failing disk measurement are left out. Only the fields of a clip that the purge looks at are kept.
- PurgeProtocol.StepIsSafe: a lock, a file write or a saved record may come between any two clips, but not between re-reading a record and updating it; a crash may come anywhere, between the recorder's write and its save too. Paths are named by event: a record is never saved for a path of another event.
- PurgeMedia.PurgeMediaUseCase.ReleaseFile: `FileStorage::exists` answers false on any I/O error (`file_storage.cpp:24-28`), and the record is then marked purged while the file stays; in the model whether a file exists is always known.
- PurgeCrash.CrashThenRerun: the LGPD strategy alone; with a quota the outcome depends on disk usage at the time of each sweep.
- FrameLog.RecordingRoundTrips: file errors, the stream's own buffering and the sleeping of real-time replay are left out; sizes stay below 2 to the 64th and timestamps in 64 bits, as in the code.
- PolygonValidator.IsValidPolygon: coordinates are exact reals, so rounding of the cross product is not captured.
- PeakConcurrency.Aggregate: an event is its type and its instant; zone, window and the refusal of a blank zone name are left out; the average is an exact real.
- `std::optional` results, exceptions and their texts are `Option` and `Result` values without messages.
- GStreamer sources and muxer, HTTP server, SQLite and DuckDB access, hashing, shared-memory system calls, `main.cpp`, tools and scripts: foreign calls.
- ZoneEditor and its overlay player: drawing and mouse handling.
- The rest of S5 (rollups, heat map, homography, debounce, DTOs): each is a short formula.
