/** What waiting is for: a reader that waits for the end of its window gets the end of its window, unless
    its time was up before. */
module CaptureWaiting {
  import opened Outcomes
  import opened RingBuffers
  import opened SegmentSelection
  import opened RingBufferIndex
  import opened FrameArena
  import opened CaptureFacade

  /** A reader awake before its time is up has seen the end of its window captured, or the capture has
      stopped. */
  ghost predicate HasWaited(s: Facade, id: nat)
    requires id in s.readers
  {
    var r := s.readers[id];
    r.waits && !r.timedOut && (r.at == Awake || r.at == Reading) ==> MayProceed(s, r.window)
  }

  ghost predicate AllHaveWaited(s: Facade) {
    forall id :: id in s.readers ==> HasWaited(s, id)
  }

  /** Whoever holds the mutex, the ring changes under no one else. */
  lemma RingIsHeld(s: Facade, t: Facade, id: nat)
    requires Inv(s) && Next(s, t) && id in s.readers && ReaderHolds(s.readers[id].at)
    ensures t.buffer.ring == s.buffer.ring && (t.isCapturing ==> s.isCapturing)
  {
    assert s.holder == Some(ReaderThread(id));
    if other :| ReaderSteps(s, t, other) {
      ReaderTouchesNoRing(s, t, other);
    }
  }

  lemma ReaderTouchesNoRing(s: Facade, t: Facade, id: nat)
    requires ReaderSteps(s, t, id)
    ensures t.buffer == s.buffer && t.isCapturing == s.isCapturing
  {
  }

  /** The only way to wake up before the time is up leads past the condition. */
  lemma ReaderHasWaited(s: Facade, t: Facade, id: nat)
    requires ReaderSteps(s, t, id) && HasWaited(s, id)
    ensures t.readers == s.readers[id := t.readers[id]] && HasWaited(t, id)
  {
    ReaderTouchesNoRing(s, t, id);
  }

  /** Nobody else moves a reader that is awake. */
  lemma OthersLeaveAwake(s: Facade, t: Facade, id: nat)
    requires Next(s, t) && !ReaderSteps(s, t, id) && id in t.readers
    requires t.readers[id].at == Awake || t.readers[id].at == Reading
    ensures id in s.readers && s.readers[id] == t.readers[id]
  {
    if other :| ReaderSteps(s, t, other) {
      ReaderMovesOnlyItself(s, t, other);
    }
  }

  lemma ReaderMovesOnlyItself(s: Facade, t: Facade, id: nat)
    requires ReaderSteps(s, t, id)
    ensures t.readers == s.readers[id := t.readers[id]]
  {
  }

  lemma NextKeepsWaited(s: Facade, t: Facade)
    requires Inv(s) && Next(s, t) && AllHaveWaited(s)
    ensures AllHaveWaited(t)
  {
    forall id | id in t.readers ensures HasWaited(t, id) {
      if ReaderSteps(s, t, id) {
        ReaderHasWaited(s, t, id);
      } else if t.readers[id].at == Awake || t.readers[id].at == Reading {
        OthersLeaveAwake(s, t, id);
        assert HasWaited(s, id);
        RingIsHeld(s, t, id);
      }
    }
  }

  lemma NobodyHasReadYet(s: Facade)
    requires Init(s)
    ensures AllHaveWaited(s)
  {
  }

  lemma StepKeepsWaited(run: seq<Facade>, i: nat)
    requires IsInterleaving(run) && i + 1 < |run| && AllHaveWaited(run[i])
    ensures AllHaveWaited(run[i + 1])
  {
    InvHolds(run, i);
    assert NextAt(run, i);
    NextKeepsWaited(run[i], run[i + 1]);
  }

  lemma {:induction false} WaitedInEveryState(run: seq<Facade>, i: nat)
    requires IsInterleaving(run) && i < |run|
    ensures AllHaveWaited(run[i])
  {
    if i == 0 {
      NobodyHasReadYet(run[0]);
    } else {
      WaitedInEveryState(run, i - 1);
      StepKeepsWaited(run, i - 1);
    }
  }

  /** The end flag is what the newest live frame says. */
  lemma EndFlagIsOfNewest(b: Buffer, w: CaptureWindow)
    requires Extract(b, w).Success?
    ensures b.ring.frames != []
    ensures Extract(b, w).value.isTruncatedAtEnd <==> b.ring.frames[|b.ring.frames| - 1].captureTsNs < w.endNs
  {
    var selected := Select(Stamps(b.ring.frames), w);
    assert selected.Success?;
  }

  lemma CopyInTimeIsWhole(s: Facade, t: Facade, id: nat)
    requires Inv(s) && AllHaveWaited(s) && CopiesWindow(s, t, id)
    requires s.readers[id].waits && !s.readers[id].timedOut && t.readers[id].result.value.Success?
    ensures !t.readers[id].result.value.value.isTruncatedAtEnd
  {
    assert HasWaited(s, id);
    EndFlagIsOfNewest(s.buffer, s.readers[id].window);
  }

  /** In every interleaving: a reader that waited and whose copy is flagged as truncated at the end has run
      out of time. */
  lemma TruncatedEndMeansTimeout(run: seq<Facade>, i: nat, id: nat)
    requires IsInterleaving(run) && i + 1 < |run|
    ensures CopiesWindow(run[i], run[i + 1], id) && run[i].readers[id].waits
            && run[i + 1].readers[id].result.value.Success?
            && run[i + 1].readers[id].result.value.value.isTruncatedAtEnd
            ==> run[i].readers[id].timedOut
  {
    if
      && CopiesWindow(run[i], run[i + 1], id) && run[i].readers[id].waits && !run[i].readers[id].timedOut
      && run[i + 1].readers[id].result.value.Success?
    {
      WaitedInEveryState(run, i);
      InvHolds(run, i);
      CopyInTimeIsWhole(run[i], run[i + 1], id);
    }
  }
}
