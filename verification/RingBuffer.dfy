/** The circular index of frames: where each frame goes, which frames die for it, and how the live
    frames lie in the arena. `RingState` and its functions are the specification that the in-place code
    of module RingBufferIndex is proved against. */
module RingBuffers {
  import opened Outcomes
  import opened Sequences

  /** Nanoseconds on the capture clock. */
  type Nanoseconds = int

  /** A closed window [startNs, endNs] that is never empty. */
  datatype Window = Window(startNs: Nanoseconds, endNs: Nanoseconds) {
    predicate Contains(timestampNs: Nanoseconds) {
      startNs <= timestampNs <= endNs
    }
  }
  type CaptureWindow = w: Window | w.startNs < w.endNs witness Window(0, 1)

  datatype FrameDescriptor = FrameDescriptor(
    sequence: nat,
    captureTsNs: Nanoseconds,
    offset: nat,
    length: nat,
    isKeyframe: bool,
    sessionId: string)
  {
    function EndOffset(): nat { offset + length }

    predicate Holds(position: nat) {
      offset <= position < EndOffset()
    }

    predicate Occupies(start: nat, end: nat) {
      offset < end && start < EndOffset()
    }
  }

  /** The overlap test is true exactly when the frame and the region share a byte. */
  lemma OccupiesIsSharing(f: FrameDescriptor, start: nat, end: nat)
    requires f.length > 0 && start < end
    ensures f.Occupies(start, end) <==> exists b: nat :: f.Holds(b) && start <= b < end
  {
    if f.Occupies(start, end) {
      var b := if f.offset < start then start else f.offset;
      assert f.Holds(b) && start <= b < end;
    }
  }

  datatype RingError =
    | FrameTooLarge
    | NonMonotonicTimestamp
    | WindowNotInBuffer
    | NoDecodableStart

  datatype Allocation = Allocation(
    descriptor: FrameDescriptor,
    evicted: seq<FrameDescriptor>,
    sessionRestarted: bool)

  /** The fields of the ring. */
  datatype RingState = RingState(
    capacity: nat,
    frames: seq<FrameDescriptor>,
    writeOffset: nat,
    nextSequence: nat,
    hasSession: bool,
    sessionId: string,
    ingestedTotal: nat,
    evictedTotal: nat)

  function EmptyRing(capacity: nat): RingState {
    RingState(capacity, [], 0, 0, false, "", 0, 0)
  }

  // ------------------------------------------------ what allocate is to do

  predicate RestartsSession(r: RingState, sessionId: string) {
    r.hasSession && r.sessionId != sessionId
  }

  /** A new session empties the index and rewinds the write pointer. */
  function InSession(r: RingState, sessionId: string): RingState {
    if RestartsSession(r, sessionId)
    then r.(evictedTotal := r.evictedTotal + |r.frames|, frames := [], writeOffset := 0, sessionId := sessionId)
    else r.(hasSession := true, sessionId := sessionId)
  }

  predicate Wraps(r: RingState, length: nat) {
    r.writeOffset + length > r.capacity
  }

  function OffsetFor(r: RingState, length: nat): nat {
    if Wraps(r, length) then 0 else r.writeOffset
  }

  /** A frame left over from the lap before, when the write pointer turns around behind it. */
  predicate LeftBehind(r: RingState, length: nat, f: FrameDescriptor) {
    Wraps(r, length) && f.offset >= r.writeOffset
  }

  /** A frame whose bytes the new one overwrites. */
  predicate Overwritten(r: RingState, length: nat, f: FrameDescriptor) {
    f.Occupies(OffsetFor(r, length), OffsetFor(r, length) + length)
  }

  /** Which frames outlive the allocation of length bytes. Unlike the code, which only looks at the
      front of the queue, this examines every frame. */
  function Survivors(r: RingState, length: nat): seq<FrameDescriptor> {
    Filter(r.frames, f => !LeftBehind(r, length, f) && !Overwritten(r, length, f))
  }

  function Evicted(r: RingState, length: nat): seq<FrameDescriptor> {
    Filter(r.frames, f => !LeftBehind(r, length, f) && Overwritten(r, length, f))
  }

  function Place(r: RingState, ts: Nanoseconds, length: nat, isKeyframe: bool): (RingState, FrameDescriptor) {
    var d := FrameDescriptor(r.nextSequence, ts, OffsetFor(r, length), length, isKeyframe, r.sessionId);
    var kept := Survivors(r, length);
    (r.(frames := kept + [d],
        writeOffset := d.EndOffset(),
        nextSequence := r.nextSequence + 1,
        ingestedTotal := r.ingestedTotal + 1,
        evictedTotal := r.evictedTotal + |r.frames| - |kept|),
     d)
  }

  function Rejection(r: RingState, ts: Nanoseconds, length: nat, sessionId: string): Option<RingError> {
    if length == 0 || length > r.capacity then Some(FrameTooLarge)
    else
      var s := InSession(r, sessionId);
      if s.frames != [] && ts < s.frames[|s.frames| - 1].captureTsNs then Some(NonMonotonicTimestamp)
      else None
  }

  /** The ring after allocate, and what allocate returns. A rejected frame leaves the ring as it was. */
  function Allocate(r: RingState, ts: Nanoseconds, length: nat, isKeyframe: bool, sessionId: string)
    : (RingState, Result<Allocation, RingError>)
  {
    match Rejection(r, ts, length, sessionId)
    case Some(error) => (r, Failure(error))
    case None =>
      var s := InSession(r, sessionId);
      var (placed, descriptor) := Place(s, ts, length, isKeyframe);
      (placed, Success(Allocation(descriptor, Evicted(s, length), RestartsSession(r, sessionId))))
  }

  // --------------------------------------------------------------- layout

  /** Frames laid end to end over [start, end), none of them empty. */
  ghost predicate Packed(s: seq<FrameDescriptor>, start: nat, end: nat) {
    if s == [] then start == end
    else s[0].offset == start && s[0].length > 0 && Packed(s[1..], s[0].EndOffset(), end)
  }

  lemma {:induction false} PackedAt(s: seq<FrameDescriptor>, start: nat, end: nat, i: nat)
    requires Packed(s, start, end) && i < |s|
    ensures start <= s[i].offset < s[i].EndOffset() <= end
    ensures Packed(s[i..], s[i].offset, end)
  {
    if i == 0 {
      PackedIsOrdered(s, start, end);
    } else {
      PackedAt(s[1..], s[0].EndOffset(), end, i - 1);
      assert s[1..][i - 1..] == s[i..];
    }
  }

  lemma {:induction false} PackedIsOrdered(s: seq<FrameDescriptor>, start: nat, end: nat)
    requires Packed(s, start, end)
    ensures start <= end
    ensures s != [] ==> s[0].EndOffset() <= end
  {
    if s != [] {
      PackedIsOrdered(s[1..], s[0].EndOffset(), end);
    }
  }

  lemma PackedPair(s: seq<FrameDescriptor>, start: nat, end: nat, i: nat, j: nat)
    requires Packed(s, start, end) && i < j < |s|
    ensures s[i].EndOffset() <= s[j].offset
  {
    PackedAt(s, start, end, i);
    var rest := s[i..];
    assert rest[1..][j - i - 1] == s[j];
    PackedAt(rest[1..], s[i].EndOffset(), end, j - i - 1);
  }

  lemma {:induction false} PackedExtend(s: seq<FrameDescriptor>, start: nat, f: FrameDescriptor)
    requires Packed(s, start, f.offset) && f.length > 0
    ensures Packed(s + [f], start, f.EndOffset())
  {
    if s == [] {
      assert s + [f] == [f];
    } else {
      PackedExtend(s[1..], s[0].EndOffset(), f);
      assert (s + [f])[1..] == s[1..] + [f];
    }
  }

  /** Where the last lap stands in the queue: frames[..split] are what is left of it, packed over
      [oldStart, oldEnd) ahead of the write pointer; frames[split..] are the current lap. */
  datatype Laps = Laps(split: nat, oldStart: nat, oldEnd: nat)

  ghost predicate LaidOut(r: RingState, l: Laps) {
    Layout(r.capacity, r.frames, r.writeOffset, l)
  }

  ghost predicate Layout(capacity: nat, frames: seq<FrameDescriptor>, writeOffset: nat, l: Laps) {
    && l.split <= |frames|
    && Packed(frames[..l.split], l.oldStart, l.oldEnd)
    && Packed(frames[l.split..], 0, writeOffset)
    && l.oldEnd <= capacity
    && writeOffset <= capacity
    && (l.split > 0 ==> writeOffset <= l.oldStart)
    && (frames != [] ==> writeOffset > 0)
    && (frames == [] ==> writeOffset == 0)
  }

  /** The laps once m frames died for a frame of the given length. */
  ghost function LapsAfter(r: RingState, l: Laps, length: nat, m: nat): Laps
    requires m <= |r.frames| && (if Wraps(r, length) then m > 0 else m <= l.split)
  {
    if Wraps(r, length) then Laps(|r.frames| - m, r.frames[m - 1].EndOffset(), r.writeOffset)
    else Laps(l.split - m, if m > 0 then r.frames[m - 1].EndOffset() else l.oldStart, l.oldEnd)
  }

  /** Old-lap frames stand ahead of the write pointer, current-lap frames behind it. */
  lemma LapBounds(r: RingState, l: Laps)
    requires LaidOut(r, l)
    ensures forall i :: 0 <= i < l.split ==>
      r.writeOffset <= l.oldStart <= r.frames[i].offset < r.frames[i].EndOffset() <= l.oldEnd
    ensures forall i :: l.split <= i < |r.frames| ==>
      r.frames[i].offset < r.frames[i].EndOffset() <= r.writeOffset
  {
    var lap := r.frames[l.split..];
    forall i | 0 <= i < l.split
      ensures l.oldStart <= r.frames[i].offset < r.frames[i].EndOffset() <= l.oldEnd
    {
      PackedAt(r.frames[..l.split], l.oldStart, l.oldEnd, i);
    }
    forall i | l.split <= i < |r.frames|
      ensures r.frames[i].offset < r.frames[i].EndOffset() <= r.writeOffset
    {
      assert lap[i - l.split] == r.frames[i];
      PackedAt(lap, 0, r.writeOffset, i - l.split);
    }
  }

  /** Within one lap, a later frame lies above an earlier one. */
  lemma LapOrder(r: RingState, l: Laps, i: nat, j: nat)
    requires LaidOut(r, l) && i < j < |r.frames| && (j < l.split || l.split <= i)
    ensures r.frames[i].EndOffset() <= r.frames[j].offset
  {
    if j < l.split {
      PackedPair(r.frames[..l.split], l.oldStart, l.oldEnd, i, j);
    } else {
      PackedPair(r.frames[l.split..], 0, r.writeOffset, i - l.split, j - l.split);
    }
  }

  /** The regions of live frames: not empty, inside the arena, pairwise disjoint. */
  lemma LaidOutRegions(r: RingState, l: Laps)
    requires LaidOut(r, l)
    ensures forall i :: 0 <= i < |r.frames| ==> r.frames[i].length > 0 && r.frames[i].EndOffset() <= r.capacity
    ensures forall i, j :: 0 <= i < j < |r.frames| ==>
      r.frames[i].EndOffset() <= r.frames[j].offset || r.frames[j].EndOffset() <= r.frames[i].offset
  {
    LapBounds(r, l);
    forall i, j | 0 <= i < j < |r.frames|
      ensures r.frames[i].EndOffset() <= r.frames[j].offset || r.frames[j].EndOffset() <= r.frames[i].offset
    {
      if j < l.split || l.split <= i {
        LapOrder(r, l, i, j);
      }
    }
  }

  /** The queue the popping loops split: k frames left behind by a wrap, then those overwritten up
      to m, then the survivors. */
  ghost predicate PopsFromFront(r: RingState, length: nat, k: nat, m: nat) {
    && k <= m <= |r.frames|
    && (forall i :: 0 <= i < k ==> LeftBehind(r, length, r.frames[i]))
    && (forall i :: k <= i < m ==> !LeftBehind(r, length, r.frames[i]) && Overwritten(r, length, r.frames[i]))
    && (forall i :: m <= i < |r.frames| ==> !LeftBehind(r, length, r.frames[i]) && !Overwritten(r, length, r.frames[i]))
  }

  /** Looking only at the front of the queue finds every doomed frame. This is what the layout is
      kept for. */
  lemma FrontSuffices(r: RingState, l: Laps, length: nat, k: nat, m: nat)
    requires LaidOut(r, l) && 0 < length <= r.capacity
    requires k <= m <= |r.frames|
    requires forall i :: 0 <= i < k ==> LeftBehind(r, length, r.frames[i])
    requires k < |r.frames| ==> !LeftBehind(r, length, r.frames[k])
    requires forall i :: k <= i < m ==> Overwritten(r, length, r.frames[i])
    requires m < |r.frames| ==> !Overwritten(r, length, r.frames[m])
    ensures PopsFromFront(r, length, k, m)
    ensures Wraps(r, length) ==> k == l.split < m
    ensures !Wraps(r, length) ==> k == 0 && m <= l.split
  {
    LapBounds(r, l);
    assert Wraps(r, length) ==> k == l.split;
    assert !Wraps(r, length) ==> k == 0;
    forall i | m <= i < |r.frames| ensures !Overwritten(r, length, r.frames[i]) {
      if m < i && (i < l.split || l.split <= m) {
        LapOrder(r, l, m, i);
      }
    }
    if Wraps(r, length) {
      WrapStartsAtZero(r, l, length);
    }
  }

  /** When the pointer turns around, the current lap is not empty and its first frame is at 0. */
  lemma WrapStartsAtZero(r: RingState, l: Laps, length: nat)
    requires LaidOut(r, l) && 0 < length <= r.capacity && Wraps(r, length)
    ensures l.split < |r.frames| && r.frames[l.split].offset == 0
    ensures Overwritten(r, length, r.frames[l.split])
  {
    var lap := r.frames[l.split..];
    assert r.writeOffset > 0;
    assert lap != [];
    assert lap[0] == r.frames[l.split];
  }

  /** What the loops pop is exactly what the specification dooms. */
  lemma PopsMatchFilters(r: RingState, length: nat, k: nat, m: nat)
    requires PopsFromFront(r, length, k, m)
    ensures Survivors(r, length) == r.frames[m..]
    ensures Evicted(r, length) == r.frames[k..m]
  {
    var f := r.frames;
    FilterDropsPrefix(f, m, f => !LeftBehind(r, length, f) && !Overwritten(r, length, f));
    var hit := f => !LeftBehind(r, length, f) && Overwritten(r, length, f);
    assert f == f[..k] + (f[k..m] + f[m..]);
    FilterAppend(f[..k], f[k..m] + f[m..], hit);
    FilterAppend(f[k..m], f[m..], hit);
    FilterNone(f[..k], hit);
    FilterAll(f[k..m], hit);
    FilterNone(f[m..], hit);
  }

  /** In a laid-out ring the doomed frames are a prefix of the queue. */
  lemma DoomedPrefixExists(r: RingState, l: Laps, length: nat) returns (k: nat, m: nat)
    requires LaidOut(r, l) && 0 < length <= r.capacity
    ensures PopsFromFront(r, length, k, m)
    ensures Wraps(r, length) ==> k == l.split < m
    ensures !Wraps(r, length) ==> k == 0 && m <= l.split
  {
    k := 0;
    while k < |r.frames| && LeftBehind(r, length, r.frames[k])
      invariant k <= |r.frames|
      invariant forall i :: 0 <= i < k ==> LeftBehind(r, length, r.frames[i])
    {
      k := k + 1;
    }
    m := k;
    while m < |r.frames| && Overwritten(r, length, r.frames[m])
      invariant k <= m <= |r.frames|
      invariant forall i :: k <= i < m ==> Overwritten(r, length, r.frames[i])
    {
      m := m + 1;
    }
    FrontSuffices(r, l, length, k, m);
  }

  /** A frame that wraps starts a new lap: what outlives it of the lap before becomes the old lap. */
  lemma WrapKeepsLayout(r: RingState, l: Laps, m: nat, d: FrameDescriptor) returns (l': Laps)
    requires LaidOut(r, l) && 0 < d.length <= r.capacity && Wraps(r, d.length) && d.offset == 0
    requires l.split < m <= |r.frames| && PopsFromFront(r, d.length, l.split, m)
    ensures l' == Laps(|r.frames| - m, r.frames[m - 1].EndOffset(), r.writeOffset)
    ensures Layout(r.capacity, r.frames[m..] + [d], d.EndOffset(), l')
    ensures r.frames[m - 1].offset < d.length
  {
    l' := Laps(|r.frames| - m, r.frames[m - 1].EndOffset(), r.writeOffset);
    var lap, rest := r.frames[l.split..], r.frames[m..];
    var gone := m - l.split;
    PackedAt(lap, 0, r.writeOffset, gone - 1);
    assert lap[gone - 1] == r.frames[m - 1];
    assert lap[gone - 1..][1..] == rest;
    assert Packed(rest, l'.oldStart, l'.oldEnd);
    assert (rest + [d])[..l'.split] == rest && (rest + [d])[l'.split..] == [d];
    assert Packed([d], 0, d.EndOffset());
    if rest != [] {
      assert !Overwritten(r, d.length, r.frames[m]);
      assert rest[0] == r.frames[m];
    }
    assert Overwritten(r, d.length, r.frames[m - 1]);
  }

  /** A frame that fits extends the current lap, over the front of the old one. */
  lemma FitKeepsLayout(r: RingState, l: Laps, m: nat, d: FrameDescriptor) returns (l': Laps)
    requires LaidOut(r, l) && 0 < d.length <= r.capacity && !Wraps(r, d.length) && d.offset == r.writeOffset
    requires m <= l.split && PopsFromFront(r, d.length, 0, m)
    ensures l' == Laps(l.split - m, if m == 0 then l.oldStart else r.frames[m - 1].EndOffset(), l.oldEnd)
    ensures Layout(r.capacity, r.frames[m..] + [d], d.EndOffset(), l')
    ensures m > 0 ==> r.frames[m - 1].offset < d.EndOffset()
    ensures m > 0 ==> l.oldStart <= l'.oldStart
  {
    l' := Laps(l.split - m, if m == 0 then l.oldStart else r.frames[m - 1].EndOffset(), l.oldEnd);
    var prior, lap := r.frames[..l.split], r.frames[l.split..];
    if m > 0 {
      PackedAt(prior, l.oldStart, l.oldEnd, m - 1);
      assert prior[m - 1..][1..] == prior[m..];
      assert Overwritten(r, d.length, r.frames[m - 1]);
    }
    var frames := r.frames[m..] + [d];
    assert prior[m..] == r.frames[m..][..l'.split];
    assert frames[..l'.split] == r.frames[m..][..l'.split];
    assert frames[l'.split..] == lap + [d];
    PackedExtend(lap, 0, d);
    if l'.split > 0 {
      assert !Overwritten(r, d.length, r.frames[m]);
      LapBounds(r, l);
      assert prior[m..][0] == r.frames[m];
    }
  }

  /** What the popping loops know when they stop: k frames left behind were discarded, the overlapped ones
      that follow evicted, and neither loop would take the front of what is left. */
  ghost predicate StopsPopping(r: RingState, length: nat, k: nat, evicted: seq<FrameDescriptor>,
                               rest: seq<FrameDescriptor>)
  {
    && k <= |r.frames| && r.frames[k..] == evicted + rest
    && (forall i :: 0 <= i < k ==> LeftBehind(r, length, r.frames[i]))
    && (k < |r.frames| ==> !LeftBehind(r, length, r.frames[k]))
    && (forall f :: f in evicted ==> Overwritten(r, length, f))
    && (rest != [] ==> !Overwritten(r, length, rest[0]))
  }

  /** Popping at the front splits the queue. */
  lemma PopsSplit(r: RingState, l: Laps, length: nat, k: nat, evicted: seq<FrameDescriptor>,
                  rest: seq<FrameDescriptor>)
    requires LaidOut(r, l) && 0 < length <= r.capacity && StopsPopping(r, length, k, evicted, rest)
    ensures k + |evicted| <= |r.frames| && rest == r.frames[k + |evicted|..]
    ensures evicted == r.frames[k..k + |evicted|]
    ensures PopsFromFront(r, length, k, k + |evicted|)
    ensures if Wraps(r, length) then k == l.split < k + |evicted| else k == 0 && |evicted| <= l.split
  {
    var m := k + |evicted|;
    assert r.frames[k..][|evicted|..] == r.frames[m..];
    forall i | k <= i < m ensures Overwritten(r, length, r.frames[i]) {
      assert r.frames[i] == evicted[i - k];
    }
    FrontSuffices(r, l, length, k, m);
  }

  /** What is left and the new frame behind it are laid out again. */
  lemma PlacedLayout(r: RingState, l: Laps, length: nat, k: nat, m: nat, d: FrameDescriptor)
    requires LaidOut(r, l) && 0 < length <= r.capacity && PopsFromFront(r, length, k, m)
    requires if Wraps(r, length) then k == l.split < m else k == 0 && m <= l.split
    requires d.offset == OffsetFor(r, length) && d.length == length
    ensures Layout(r.capacity, r.frames[m..] + [d], d.EndOffset(), LapsAfter(r, l, length, m))
  {
    if Wraps(r, length) {
      var l' := WrapKeepsLayout(r, l, m, d);
    } else {
      var l' := FitKeepsLayout(r, l, m, d);
    }
  }

  /** The fields of the ring once the frame is placed. */
  lemma PlacedState(r: RingState, ts: Nanoseconds, length: nat, isKeyframe: bool, k: nat, m: nat)
    requires PopsFromFront(r, length, k, m)
    ensures Evicted(r, length) == r.frames[k..m]
    ensures var d := FrameDescriptor(r.nextSequence, ts, OffsetFor(r, length), length, isKeyframe, r.sessionId);
      Place(r, ts, length, isKeyframe) ==
      (RingState(r.capacity, r.frames[m..] + [d], d.EndOffset(), r.nextSequence + 1, r.hasSession, r.sessionId,
                 r.ingestedTotal + 1, r.evictedTotal + m), d)
  {
    PopsMatchFilters(r, length, k, m);
  }

  /** Once k frames are discarded, the ones that follow evicted and the new one registered behind the rest,
      the ring is the placed one, laid out anew. */
  lemma PopsMakeRoom(r: RingState, l: Laps, ts: Nanoseconds, length: nat, isKeyframe: bool, k: nat,
                     evicted: seq<FrameDescriptor>, rest: seq<FrameDescriptor>, d: FrameDescriptor, after: RingState)
    requires LaidOut(r, l) && 0 < length <= r.capacity && StopsPopping(r, length, k, evicted, rest)
    requires d == FrameDescriptor(r.nextSequence, ts, OffsetFor(r, length), length, isKeyframe, r.sessionId)
    requires after == RingState(r.capacity, rest + [d], d.EndOffset(), r.nextSequence + 1, r.hasSession, r.sessionId,
                                r.ingestedTotal + 1, r.evictedTotal + k + |evicted|)
    ensures Evicted(r, length) == evicted
    ensures Place(r, ts, length, isKeyframe) == (after, d)
    ensures k + |evicted| <= |r.frames| && (if Wraps(r, length) then k + |evicted| > 0 else k + |evicted| <= l.split)
    ensures LaidOut(after, LapsAfter(r, l, length, k + |evicted|))
  {
    PopsSplit(r, l, length, k, evicted, rest);
    PopsPlace(r, l, ts, length, isKeyframe, k, k + |evicted|, d);
  }

  lemma PopsPlace(r: RingState, l: Laps, ts: Nanoseconds, length: nat, isKeyframe: bool, k: nat, m: nat,
                  d: FrameDescriptor)
    requires LaidOut(r, l) && 0 < length <= r.capacity && PopsFromFront(r, length, k, m)
    requires if Wraps(r, length) then k == l.split < m else k == 0 && m <= l.split
    requires d == FrameDescriptor(r.nextSequence, ts, OffsetFor(r, length), length, isKeyframe, r.sessionId)
    ensures Evicted(r, length) == r.frames[k..m]
    ensures Place(r, ts, length, isKeyframe) ==
      (RingState(r.capacity, r.frames[m..] + [d], d.EndOffset(), r.nextSequence + 1, r.hasSession, r.sessionId,
                 r.ingestedTotal + 1, r.evictedTotal + m), d)
    ensures Layout(r.capacity, r.frames[m..] + [d], d.EndOffset(), LapsAfter(r, l, length, m))
  {
    PlacedState(r, ts, length, isKeyframe, k, m);
    PlacedLayout(r, l, length, k, m, d);
  }

  /** How many frames a placement kills in a laid-out ring, and how far up the last of them starts. */
  lemma DoomedPrefix(r: RingState, l: Laps, length: nat) returns (k: nat, m: nat)
    requires LaidOut(r, l) && 0 < length <= r.capacity
    ensures PopsFromFront(r, length, k, m)
    ensures if Wraps(r, length) then k == l.split < m else k == 0 && m <= l.split
    ensures m > 0 ==> r.frames[m - 1].offset < OffsetFor(r, length) + length
  {
    k, m := DoomedPrefixExists(r, l, length);
    if m > k {
      assert Overwritten(r, length, r.frames[m - 1]);
    }
  }
}
