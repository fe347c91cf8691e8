/** How good the retention bound is: for which arenas and longest frames some run leaves no more live bytes
    than it promises. */
module RetentionTightness {
  import opened Outcomes
  import opened RingBuffers
  import opened RingBufferIndex
  import opened FrameArena
  import opened RingHistory

  /** A run, past its first wrap, that leaves exactly capacity - 2 * longest + 2 live bytes. */
  ghost predicate MeetsBound(capacity: nat, longest: nat, arena: seq<byte>, inputs: seq<CapturedFrame>) {
    var r, all := Run(capacity, arena, inputs).ring, HistoryOf(capacity, inputs).frames;
    && 0 < capacity <= |arena|
    && HasWrapped(capacity, all) && Longest(all) == longest
    && TotalBytes(r.frames) + 2 * longest == capacity + 2
  }

  // ------------------------------------------------- when it cannot be met

  lemma MeetingNeedsRoom(capacity: nat, longest: nat, arena: seq<byte>, inputs: seq<CapturedFrame>)
    requires MeetsBound(capacity, longest, arena, inputs)
    ensures 3 * longest <= capacity + 2
  {
    var l := RunRelated(capacity, arena, inputs);
    var r := Run(capacity, arena, inputs).ring;
    LiveBytes(r, l);
    PackedIsOrdered(r.frames[..l.split], l.oldStart, l.oldEnd);
  }

  // --------------------------------------------------- frames of given lengths

  function Blank(length: nat): (f: CapturedFrame)
    ensures |f.data| == length
  {
    CapturedFrame(0, seq(length, _ => 0), true, "")
  }

  function Blanks(lengths: seq<nat>): (inputs: seq<CapturedFrame>)
    ensures |inputs| == |lengths|
    ensures forall i :: 0 <= i < |lengths| ==> inputs[i] == Blank(lengths[i])
  {
    seq(|lengths|, i requires 0 <= i < |lengths| => Blank(lengths[i]))
  }

  function SumOf(lengths: seq<nat>): nat {
    if lengths == [] then 0 else SumOf(lengths[..|lengths| - 1]) + lengths[|lengths| - 1]
  }

  /** Every one of the frames is accepted. */
  ghost predicate AreAccepted(h: History, lengths: seq<nat>) {
    && |h.frames| == |lengths| == h.acceptedTotal
    && (forall i :: 0 <= i < |lengths| ==> |h.frames[i].data| == lengths[i] && h.frames[i].captureTsNs == 0)
    && (if lengths == [] then h == NO_HISTORY else h.hasSession && h.sessionId == "")
  }

  lemma BlanksInit(lengths: seq<nat>)
    requires lengths != []
    ensures Blanks(lengths)[..|lengths| - 1] == Blanks(lengths[..|lengths| - 1])
  {
  }

  lemma {:induction false} BlanksAreAccepted(capacity: nat, lengths: seq<nat>)
    requires forall i :: 0 <= i < |lengths| ==> 0 < lengths[i] <= capacity
    ensures AreAccepted(HistoryOf(capacity, Blanks(lengths)), lengths)
  {
    if lengths != [] {
      var n := |lengths| - 1;
      BlanksInit(lengths);
      BlanksAreAccepted(capacity, lengths[..n]);
      var h := HistoryOf(capacity, Blanks(lengths[..n]));
      assert Accept(capacity, h, Blank(lengths[n])) == Append(Enter(h, ""), Blank(lengths[n]));
    }
  }

  /** As long as the frames fit one behind the other, none wraps. */
  lemma {:induction false} FittingFramesStayInLap(capacity: nat, frames: seq<Recorded>, lengths: seq<nat>)
    requires |frames| == |lengths| && forall i :: 0 <= i < |lengths| ==> |frames[i].data| == lengths[i]
    requires SumOf(lengths) <= capacity
    ensures LapPointer(capacity, frames) == SumOf(lengths) && !HasWrapped(capacity, frames)
  {
    if frames != [] {
      FittingFramesStayInLap(capacity, frames[..|frames| - 1], lengths[..|lengths| - 1]);
    }
  }

  lemma {:induction false} LongestIsReached(frames: seq<Recorded>, longest: nat)
    requires frames != [] && |frames[|frames| - 1].data| == longest
    requires forall i :: 0 <= i < |frames| ==> |frames[i].data| <= longest
    ensures Longest(frames) == longest
  {
    LongestIsAtMost(frames[..|frames| - 1], longest);
  }

  lemma {:induction false} LongestIsAtMost(frames: seq<Recorded>, longest: nat)
    requires forall i :: 0 <= i < |frames| ==> |frames[i].data| <= longest
    ensures Longest(frames) <= longest
  {
    if frames != [] {
      LongestIsAtMost(frames[..|frames| - 1], longest);
    }
  }

  // ------------------------------------------------------- a run that meets it

  function Ones(n: nat): (r: seq<nat>)
    ensures |r| == n && forall i :: 0 <= i < n ==> r[i] == 1
  {
    seq(n, _ => 1)
  }

  lemma {:induction false} OnesAddUp(lengths: seq<nat>, n: nat)
    ensures SumOf(lengths + Ones(n)) == SumOf(lengths) + n
  {
    if n == 0 {
      assert lengths + Ones(0) == lengths;
    } else {
      OnesAddUp(lengths, n - 1);
      assert (lengths + Ones(n))[..|lengths + Ones(n)| - 1] == lengths + Ones(n - 1);
    }
  }

  /** The frames that the last one will overwrite: one of longest - 1 bytes, if that is a frame, and one of
      the longest behind it. */
  function Victims(longest: nat): seq<nat>
    requires longest > 0
  {
    if longest == 1 then [1] else [(longest - 1) as nat, longest]
  }

  lemma VictimsAddUp(longest: nat)
    requires longest > 0
    ensures SumOf(Victims(longest)) == 2 * longest - 1
  {
    if longest == 1 {
      assert [1][..0] == [];
    } else {
      var v := Victims(longest);
      assert v[..1] == [(longest - 1) as nat] && v[..1][..0] == [];
      assert SumOf(v[..1]) == longest - 1;
    }
  }

  /** The first lap: it leaves a gap of longest - 1 bytes at the end of the arena. */
  function FirstLap(capacity: nat, longest: nat): seq<nat>
    requires longest > 0 && 3 * longest <= capacity + 2
  {
    Victims(longest) + Ones(capacity + 2 - 3 * longest)
  }

  lemma FirstLapFits(capacity: nat, longest: nat)
    requires longest > 0 && 3 * longest <= capacity + 2
    ensures SumOf(FirstLap(capacity, longest)) == capacity - longest + 1
    ensures forall i :: 0 <= i < |FirstLap(capacity, longest)| ==> 0 < FirstLap(capacity, longest)[i] <= longest
  {
    VictimsAddUp(longest);
    OnesAddUp(Victims(longest), capacity + 2 - 3 * longest);
  }

  /** The buffer after the first lap: everything accepted is live, packed from 0. */
  ghost predicate IsFirstLap(b: Buffer, capacity: nat, longest: nat) {
    && !b.isClosed && |b.arena| >= capacity && b.ring.capacity == capacity
    && b.ring.hasSession && b.ring.sessionId == "" && b.ring.writeOffset == capacity - longest + 1
    && Packed(b.ring.frames, 0, b.ring.writeOffset)
  }

  lemma AfterFirstLap(capacity: nat, longest: nat, arena: seq<byte>) returns (b: Buffer, h: History)
    requires 0 < longest && 3 * longest <= capacity + 2 && capacity <= |arena|
    ensures var inputs := Blanks(FirstLap(capacity, longest));
      b == Run(capacity, arena, inputs) && h == HistoryOf(capacity, inputs)
    ensures AreAccepted(h, FirstLap(capacity, longest)) && IsFirstLap(b, capacity, longest)
    ensures IsSuffixOf(b.arena, b.ring.frames, h.frames) && |b.ring.frames| == |h.frames|
  {
    var lap := FirstLap(capacity, longest);
    b, h := Run(capacity, arena, Blanks(lap)), HistoryOf(capacity, Blanks(lap));
    FirstLapFits(capacity, longest);
    BlanksAreAccepted(capacity, lap);
    FittingFramesStayInLap(capacity, h.frames, lap);
    var l := RunRelated(capacity, arena, Blanks(lap));
    assert b.ring.frames[l.split..] == b.ring.frames;
  }

  /** The victims lie at the start of the arena and reach to 2 * longest - 1. */
  lemma VictimsLieFirst(frames: seq<FrameDescriptor>, end: nat, longest: nat)
    requires longest > 0 && Packed(frames, 0, end) && |Victims(longest)| <= |frames|
    requires forall i :: 0 <= i < |Victims(longest)| ==> frames[i].length == Victims(longest)[i]
    ensures frames[|Victims(longest)| - 1].EndOffset() == 2 * longest - 1
    ensures forall i :: 0 <= i < |Victims(longest)| ==> frames[i].offset < longest
  {
    if longest > 1 {
      assert frames[1..][0] == frames[1];
    }
  }

  lemma ShownLength(b: Buffer, h: History, lengths: seq<nat>, i: nat)
    requires IsSuffixOf(b.arena, b.ring.frames, h.frames) && |b.ring.frames| == |h.frames|
    requires AreAccepted(h, lengths) && i < |lengths|
    ensures b.ring.frames[i].length == lengths[i] && b.ring.frames[i].captureTsNs == 0
  {
    assert ShowsAt(b.arena, b.ring.frames, h.frames, i);
  }

  /** The last frame wraps over the victims and leaves everything behind them. */
  lemma LastFrameOverwrites(r: RingState, longest: nat, m: nat)
    requires 0 < longest && 3 * longest <= r.capacity + 2 && r.writeOffset == r.capacity - longest + 1
    requires 0 < m <= |r.frames| && r.frames[m - 1].EndOffset() == 2 * longest - 1
    requires Packed(r.frames, 0, r.writeOffset) && forall i :: 0 <= i < m ==> r.frames[i].offset < longest
    ensures TotalBytes(Place(r, 0, longest, true).0.frames) == r.capacity + 2 - 2 * longest
  {
    var rest := r.frames[m..];
    PackedAt(r.frames, 0, r.writeOffset, m - 1);
    assert r.frames[m - 1..][1..] == rest;
    forall i | 0 <= i < |r.frames|
      ensures !LeftBehind(r, longest, r.frames[i])
      ensures i < m ==> Overwritten(r, longest, r.frames[i])
      ensures i >= m ==> !Overwritten(r, longest, r.frames[i])
    {
      PackedAt(r.frames, 0, r.writeOffset, i);
      if i >= m {
        PackedPair(r.frames, 0, r.writeOffset, m - 1, i);
      }
    }
    assert PopsFromFront(r, longest, 0, m);
    PlacedState(r, 0, longest, true, 0, m);
    var d := FrameDescriptor(r.nextSequence, 0, OffsetFor(r, longest), longest, true, r.sessionId);
    PackedBytes(rest, 2 * longest - 1, r.writeOffset);
    assert (rest + [d])[..|rest|] == rest;
  }

  lemma LastFrameIsPlaced(b: Buffer, longest: nat)
    requires 0 < longest <= b.ring.capacity <= |b.arena| && !b.isClosed && b.ring.writeOffset <= b.ring.capacity
    requires b.ring.hasSession && b.ring.sessionId == "" && b.ring.frames != []
    requires b.ring.frames[|b.ring.frames| - 1].captureTsNs == 0
    ensures Ingest(b, Blank(longest)).0.ring == Place(b.ring, 0, longest, true).0
  {
    assert InSession(b.ring, "") == b.ring;
    IngestIsPlaced(b, Blank(longest));
  }

  lemma LastFrameLeaves(b: Buffer, h: History, capacity: nat, longest: nat)
    requires 0 < longest && 3 * longest <= capacity + 2
    requires AreAccepted(h, FirstLap(capacity, longest)) && IsFirstLap(b, capacity, longest)
    requires IsSuffixOf(b.arena, b.ring.frames, h.frames) && |b.ring.frames| == |h.frames|
    ensures TotalBytes(Ingest(b, Blank(longest)).0.ring.frames) == capacity + 2 - 2 * longest
  {
    var lap := FirstLap(capacity, longest);
    forall i | 0 <= i < |lap| ensures b.ring.frames[i].length == lap[i] && b.ring.frames[i].captureTsNs == 0 {
      ShownLength(b, h, lap, i);
    }
    VictimsLieFirst(b.ring.frames, b.ring.writeOffset, longest);
    LastFrameOverwrites(b.ring, longest, |Victims(longest)|);
    LastFrameIsPlaced(b, longest);
  }

  lemma RunGoesOn(capacity: nat, arena: seq<byte>, lengths: seq<nat>, last: nat)
    requires 0 < capacity <= |arena|
    ensures Run(capacity, arena, Blanks(lengths + [last]))
            == Ingest(Run(capacity, arena, Blanks(lengths)), Blank(last)).0
  {
    BlanksInit(lengths + [last]);
    assert (lengths + [last])[..|lengths|] == lengths;
  }

  lemma WrapsAtLast(capacity: nat, all: seq<Recorded>)
    requires all != [] && LapPointer(capacity, all[..|all| - 1]) + |all[|all| - 1].data| > capacity
    ensures HasWrapped(capacity, all)
  {
  }

  lemma LastWraps(capacity: nat, all: seq<Recorded>, lengths: seq<nat>, longest: nat)
    requires |all| == |lengths| + 1 && |all[|lengths|].data| == longest && SumOf(lengths) <= capacity
    requires forall i :: 0 <= i < |lengths| ==> |all[i].data| == lengths[i] <= longest
    requires SumOf(lengths) + longest > capacity
    ensures HasWrapped(capacity, all) && Longest(all) == longest
  {
    FittingFramesStayInLap(capacity, all[..|lengths|], lengths);
    WrapsAtLast(capacity, all);
    LongestIsReached(all, longest);
  }

  lemma LastFrameWraps(capacity: nat, longest: nat)
    requires 0 < longest && 3 * longest <= capacity + 2
    ensures var all := HistoryOf(capacity, Blanks(FirstLap(capacity, longest) + [longest])).frames;
      HasWrapped(capacity, all) && Longest(all) == longest
  {
    var lap := FirstLap(capacity, longest);
    FirstLapFits(capacity, longest);
    BlanksAreAccepted(capacity, lap + [longest]);
    LastWraps(capacity, HistoryOf(capacity, Blanks(lap + [longest])).frames, lap, longest);
  }

  lemma BoundCanBeMet(capacity: nat, longest: nat, arena: seq<byte>)
    requires 0 < longest && 3 * longest <= capacity + 2 && capacity <= |arena|
    ensures MeetsBound(capacity, longest, arena, Blanks(FirstLap(capacity, longest) + [longest]))
  {
    var b, h := AfterFirstLap(capacity, longest, arena);
    LastFrameLeaves(b, h, capacity, longest);
    RunGoesOn(capacity, arena, FirstLap(capacity, longest), longest);
    LastFrameWraps(capacity, longest);
  }

  /** The bound is tight exactly when three longest frames, less two bytes, fit the arena. */
  lemma RetentionBoundIsTight(capacity: nat, longest: nat)
    requires 0 < longest <= capacity
    ensures (exists arena, inputs :: MeetsBound(capacity, longest, arena, inputs)) <==> 3 * longest <= capacity + 2
  {
    if 3 * longest <= capacity + 2 {
      var arena: seq<byte> := seq(capacity, _ => 0);
      BoundCanBeMet(capacity, longest, arena);
    }
    if arena, inputs :| MeetsBound(capacity, longest, arena, inputs) {
      MeetingNeedsRoom(capacity, longest, arena, inputs);
    }
  }
}
