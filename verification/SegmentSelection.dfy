/** Which frames of a queue answer a time window: the keyframe the answer starts at, the frame it
    ends at, and the two truncation flags. */
module SegmentSelection {
  import opened Outcomes
  import opened RingBuffers

  /** What the selection looks at in a frame. */
  datatype Stamp = Stamp(captureTsNs: Nanoseconds, isKeyframe: bool)

  datatype Selection = Selection(first: nat, last: nat, isTruncatedAtStart: bool, isTruncatedAtEnd: bool)

  function StampOf(f: FrameDescriptor): Stamp {
    Stamp(f.captureTsNs, f.isKeyframe)
  }

  function Stamps(frames: seq<FrameDescriptor>): (s: seq<Stamp>)
    ensures |s| == |frames|
    ensures forall i :: 0 <= i < |s| ==> s[i] == StampOf(frames[i])
  {
    seq(|frames|, i requires 0 <= i < |frames| => StampOf(frames[i]))
  }

  predicate IsFirst<T(!new)>(s: seq<T>, p: T -> bool, i: int) {
    0 <= i < |s| && p(s[i]) && forall j :: 0 <= j < i ==> !p(s[j])
  }

  predicate IsLast<T(!new)>(s: seq<T>, p: T -> bool, i: int) {
    0 <= i < |s| && p(s[i]) && forall j :: i < j < |s| ==> !p(s[j])
  }

  lemma {:induction false} FirstExists<T(!new)>(s: seq<T>, p: T -> bool, i: nat)
    requires i < |s| && p(s[i])
    ensures exists k :: 0 <= k < |s| && IsFirst(s, p, k)
  {
    if j :| 0 <= j < i && p(s[j]) {
      FirstExists(s, p, j);
    } else {
      assert IsFirst(s, p, i);
    }
  }

  lemma {:induction false} LastExists<T(!new)>(s: seq<T>, p: T -> bool, i: nat)
    requires i < |s| && p(s[i])
    ensures exists k :: 0 <= k < |s| && IsLast(s, p, k)
    decreases |s| - i
  {
    if j :| i < j < |s| && p(s[j]) {
      LastExists(s, p, j);
    } else {
      assert IsLast(s, p, i);
    }
  }

  function FirstOf<T(!new)>(s: seq<T>, p: T -> bool): (r: nat)
    requires exists i :: 0 <= i < |s| && p(s[i])
    ensures IsFirst(s, p, r)
  {
    var i :| 0 <= i < |s| && p(s[i]);
    FirstExists(s, p, i);
    var first :| 0 <= first < |s| && IsFirst(s, p, first);
    first
  }

  function LastOf<T(!new)>(s: seq<T>, p: T -> bool): (r: nat)
    requires exists i :: 0 <= i < |s| && p(s[i])
    ensures IsLast(s, p, r)
  {
    var i :| 0 <= i < |s| && p(s[i]);
    LastExists(s, p, i);
    var last :| 0 <= last < |s| && IsLast(s, p, last);
    last
  }

  /** The first index with the property, or -1. */
  function FirstWhere<T(!new)>(s: seq<T>, p: T -> bool): (r: int)
    ensures -1 <= r < |s|
    ensures r >= 0 ==> p(s[r])
    ensures forall i :: 0 <= i < (if r < 0 then |s| else r) ==> !p(s[i])
  {
    if exists i :: 0 <= i < |s| && p(s[i]) then FirstOf(s, p) else -1
  }

  /** The last index with the property, or -1. */
  function LastWhere<T(!new)>(s: seq<T>, p: T -> bool): (r: int)
    ensures -1 <= r < |s|
    ensures r >= 0 ==> p(s[r])
    ensures forall i :: r < i < |s| ==> !p(s[i])
  {
    if exists i :: 0 <= i < |s| && p(s[i]) then LastOf(s, p) else -1
  }

  predicate KeyframeBefore(w: Window, x: Stamp) {
    x.isKeyframe && x.captureTsNs <= w.startNs
  }

  predicate KeyframeWithin(w: Window, x: Stamp) {
    x.isKeyframe && w.Contains(x.captureTsNs)
  }

  function StartIndex(s: seq<Stamp>, w: Window): int {
    var before := LastWhere(s, x => KeyframeBefore(w, x));
    if before >= 0 then before else FirstWhere(s, x => KeyframeWithin(w, x))
  }

  function EndIndex(s: seq<Stamp>, w: Window): int {
    LastWhere(s, (x: Stamp) => x.captureTsNs <= w.endNs)
  }

  function Select(s: seq<Stamp>, w: CaptureWindow): (r: Result<Selection, RingError>)
    ensures r.Success? ==> r.value.first <= r.value.last < |s|
  {
    if FirstWhere(s, (x: Stamp) => w.Contains(x.captureTsNs)) < 0 then Failure(WindowNotInBuffer)
    else
      var first := StartIndex(s, w);
      if first < 0 then Failure(NoDecodableStart)
      else Success(Selection(first, EndIndex(s, w), s[first].captureTsNs > w.startNs, s[|s| - 1].captureTsNs < w.endNs))
  }

  ghost predicate Monotone(s: seq<Stamp>) {
    forall i, j :: 0 <= i < j < |s| ==> s[i].captureTsNs <= s[j].captureTsNs
  }

  /** The answer without the search loops: a run of frames from a keyframe to the last frame at or
      before the end, holding everything of the window that follows its first frame; the keyframe is
      the nearest at or before the start, or else the first inside the window. */
  ghost predicate Answers(s: seq<Stamp>, w: CaptureWindow, a: Selection) {
    && a.first <= a.last < |s|
    && s[a.first].isKeyframe
    && s[a.last].captureTsNs <= w.endNs
    && (forall i :: a.last < i < |s| ==> s[i].captureTsNs > w.endNs)
    && (forall i :: 0 <= i < |s| && w.startNs < s[i].captureTsNs <= w.endNs && s[i].captureTsNs > s[a.first].captureTsNs
                    ==> a.first < i <= a.last)
    && (a.isTruncatedAtStart <==> forall i :: 0 <= i < |s| && s[i].isKeyframe ==> s[i].captureTsNs > w.startNs)
    && (!a.isTruncatedAtStart ==>
          s[a.first].captureTsNs <= w.startNs
          && forall i :: a.first < i < |s| && s[i].isKeyframe ==> s[i].captureTsNs > w.startNs)
    && (a.isTruncatedAtStart ==>
          w.startNs <= s[a.first].captureTsNs <= w.endNs
          && forall i :: 0 <= i < a.first ==> !s[i].isKeyframe)
    && (a.isTruncatedAtEnd <==> forall i :: 0 <= i < |s| ==> s[i].captureTsNs < w.endNs)
  }

  lemma {:induction false} SelectFailures(s: seq<Stamp>, w: CaptureWindow)
    ensures Select(s, w) == Failure(WindowNotInBuffer) <==>
      forall i :: 0 <= i < |s| ==> !(w.startNs <= s[i].captureTsNs <= w.endNs)
    ensures Select(s, w) == Failure(NoDecodableStart) <==>
      && (exists i :: 0 <= i < |s| && w.startNs <= s[i].captureTsNs <= w.endNs)
      && (forall i :: 0 <= i < |s| && s[i].isKeyframe ==> s[i].captureTsNs > w.endNs)
  {
    var inWindow := FirstWhere(s, (x: Stamp) => w.Contains(x.captureTsNs));
    var before := LastWhere(s, x => KeyframeBefore(w, x));
    var within := FirstWhere(s, x => KeyframeWithin(w, x));
    assert inWindow >= 0 ==> w.Contains(s[inWindow].captureTsNs);
    if before < 0 {
      assert forall i :: before < i < |s| ==> !KeyframeBefore(w, s[i]);
      if within < 0 {
        assert forall i :: 0 <= i < |s| ==> !KeyframeWithin(w, s[i]);
        assert forall i :: 0 <= i < |s| && s[i].isKeyframe ==> s[i].captureTsNs > w.endNs;
      } else {
        assert KeyframeWithin(w, s[within]);
      }
    } else {
      assert KeyframeBefore(w, s[before]);
    }
  }

  /** Where the search starts: the last keyframe at or before the start, or else the first keyframe of
      the window. */
  lemma SelectStarts(s: seq<Stamp>, w: CaptureWindow, a: Selection)
    requires Monotone(s) && Select(s, w) == Success(a)
    ensures s[a.first].isKeyframe
    ensures if s[a.first].captureTsNs <= w.startNs
      then forall i :: a.first < i < |s| && s[i].isKeyframe ==> s[i].captureTsNs > w.startNs
      else
        && w.startNs <= s[a.first].captureTsNs <= w.endNs
        && (forall i :: 0 <= i < |s| && s[i].isKeyframe ==> s[i].captureTsNs > w.startNs)
        && (forall i :: 0 <= i < a.first ==> !s[i].isKeyframe)
  {
    var before := LastWhere(s, x => KeyframeBefore(w, x));
    if before >= 0 {
      assert KeyframeBefore(w, s[a.first]);
      assert forall i :: before < i < |s| ==> !KeyframeBefore(w, s[i]);
    } else {
      assert KeyframeWithin(w, s[a.first]);
      assert forall i :: 0 <= i < |s| ==> !KeyframeBefore(w, s[i]);
      assert forall i :: 0 <= i < a.first ==> !KeyframeWithin(w, s[i]);
      forall i | 0 <= i < a.first ensures !s[i].isKeyframe {
        assert s[i].captureTsNs <= s[a.first].captureTsNs;
      }
    }
  }

  lemma {:induction false} SelectAnswers(s: seq<Stamp>, w: CaptureWindow)
    requires Monotone(s) && Select(s, w).Success?
    ensures Answers(s, w, Select(s, w).value)
  {
    var a := Select(s, w).value;
    SelectStarts(s, w, a);
    forall i | 0 <= i < |s| && w.startNs < s[i].captureTsNs <= w.endNs && s[i].captureTsNs > s[a.first].captureTsNs
      ensures a.first < i <= a.last
    {
      assert i <= a.last;
    }
    if s[|s| - 1].captureTsNs < w.endNs {
      assert forall i :: 0 <= i < |s| ==> s[i].captureTsNs <= s[|s| - 1].captureTsNs;
    }
  }

  /** The search is exact: each error for its own reason, and otherwise the one right answer. */
  lemma {:induction false} SelectIsExact(s: seq<Stamp>, w: CaptureWindow)
    requires Monotone(s)
    ensures Select(s, w) == Failure(WindowNotInBuffer) <==>
      forall i :: 0 <= i < |s| ==> !(w.startNs <= s[i].captureTsNs <= w.endNs)
    ensures Select(s, w) == Failure(NoDecodableStart) <==>
      && (exists i :: 0 <= i < |s| && w.startNs <= s[i].captureTsNs <= w.endNs)
      && (forall i :: 0 <= i < |s| && s[i].isKeyframe ==> s[i].captureTsNs > w.endNs)
    ensures Select(s, w).Failure? ==>
      Select(s, w) == Failure(WindowNotInBuffer) || Select(s, w) == Failure(NoDecodableStart)
    ensures Select(s, w).Success? ==> forall a :: Answers(s, w, a) <==> a == Select(s, w).value
  {
    SelectFailures(s, w);
    if Select(s, w).Success? {
      SelectAnswers(s, w);
      forall a | Answers(s, w, a) ensures Select(s, w).value == a {
        AnswerIsUnique(s, w, Select(s, w).value, a);
      }
    }
  }

  lemma AnswerIsUnique(s: seq<Stamp>, w: CaptureWindow, a: Selection, b: Selection)
    requires Monotone(s) && Answers(s, w, a) && Answers(s, w, b)
    ensures a == b
  {
    assert a.last == b.last;
    assert a.isTruncatedAtStart == b.isTruncatedAtStart;
    assert a.first == b.first;
  }

  /** How the answer over the frames from k on relates to the answer over all frames. */
  ghost predicate IsPartialAnswer(part: Selection, whole: Selection, k: nat) {
    && part.last + k == whole.last
    && part.isTruncatedAtEnd == whole.isTruncatedAtEnd
    && (part.first + k == whole.first <==> k <= whole.first)
    && (part.first + k == whole.first ==> part.isTruncatedAtStart == whole.isTruncatedAtStart)
    && (!part.isTruncatedAtStart ==> !whole.isTruncatedAtStart && part.first + k == whole.first)
    && (part.isTruncatedAtStart && !whole.isTruncatedAtStart ==> whole.first < k)
  }

  lemma EndOfSuffix(s: seq<Stamp>, k: nat, w: CaptureWindow)
    requires k <= |s| && Select(s[k..], w).Success?
    ensures StartIndex(s, w) >= 0 ==>
      && Select(s, w).Success? && EndIndex(s, w) == EndIndex(s[k..], w) + k
      && Select(s, w).value.isTruncatedAtEnd == Select(s[k..], w).value.isTruncatedAtEnd
  {
    var t := s[k..];
    var inWindow := FirstWhere(t, (x: Stamp) => w.Contains(x.captureTsNs));
    assert w.Contains(s[inWindow + k].captureTsNs);
    assert t[|t| - 1] == s[|s| - 1];
    LastOfSuffix(s, k, (x: Stamp) => x.captureTsNs <= w.endNs);
  }

  /** Searching only the last frames of a queue: the answer is the whole queue's answer exactly when
      the keyframe the whole queue would start at is among them. An answer that is not flagged as
      truncated at the start is always the whole queue's. */
  lemma {:induction false} SelectOnSuffix(s: seq<Stamp>, k: nat, w: CaptureWindow)
    requires k <= |s| && Select(s[k..], w).Success?
    ensures Select(s, w).Success?
    ensures IsPartialAnswer(Select(s[k..], w).value, Select(s, w).value, k)
  {
    StartOfSuffix(s, k, w);
    EndOfSuffix(s, k, w);
  }

  lemma StartOfSuffix(s: seq<Stamp>, k: nat, w: CaptureWindow)
    requires k <= |s| && StartIndex(s[k..], w) >= 0
    ensures var part, whole := StartIndex(s[k..], w), StartIndex(s, w);
      && whole >= 0 && s[k..][part] == s[part + k]
      && (whole == part + k || (whole < k && s[part + k].captureTsNs > w.startNs))
  {
    var t := s[k..];
    var before := LastWhere(t, x => KeyframeBefore(w, x));
    LastOfSuffix(s, k, x => KeyframeBefore(w, x));
    if before < 0 {
      assert KeyframeWithin(w, t[StartIndex(t, w)]) && !KeyframeBefore(w, t[StartIndex(t, w)]);
      FirstOfSuffix(s, k, x => KeyframeWithin(w, x));
    }
  }

  lemma LastOfSuffix(s: seq<Stamp>, k: nat, p: Stamp -> bool)
    requires k <= |s|
    ensures var last := LastWhere(s[k..], p);
      if last >= 0 then LastWhere(s, p) == last + k else LastWhere(s, p) < k
  {
    assert forall i :: k <= i < |s| ==> s[i] == s[k..][i - k];
  }

  lemma FirstOfSuffix(s: seq<Stamp>, k: nat, p: Stamp -> bool)
    requires k <= |s| && FirstWhere(s[k..], p) >= 0
    ensures 0 <= FirstWhere(s, p) < k || FirstWhere(s, p) == FirstWhere(s[k..], p) + k
  {
    assert forall i :: k <= i < |s| ==> s[i] == s[k..][i - k];
  }
}
