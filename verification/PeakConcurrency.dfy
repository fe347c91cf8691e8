/** The occupancy metric of a zone: peak concurrency, average dwell time and number of entries, from
    the enter and exit events of a time window. */
module PeakConcurrency {
  import opened Outcomes
  import opened Sequences

  datatype EventType = Enter | Exit | Other
  datatype Event = Event(kind: EventType, timestamp: int)

  datatype OccupancyMetric = OccupancyMetric(dwellTimeAvg: real, occupancyPeak: int, totalCount: int)
  datatype MetricError = NegativeDwellTime

  /** An instant at which the count goes up or down by one. */
  datatype Mark = Mark(timestamp: int, delta: int)

  // ------------------------------------------------------------- occupancy

  function AtOrBefore(times: seq<int>, t: int): nat {
    if times == [] then 0 else (if times[0] <= t then 1 else 0) + AtOrBefore(times[1..], t)
  }

  function Before(times: seq<int>, t: int): nat {
    if times == [] then 0 else (if times[0] < t then 1 else 0) + Before(times[1..], t)
  }

  /** Entered by t and not left before t. */
  function Occupied(entries: seq<int>, exits: seq<int>, t: int): int {
    AtOrBefore(entries, t) - Before(exits, t)
  }

  /** No instant is busier than peak, and peak is reached at an entry unless it is zero. */
  ghost predicate IsPeak(entries: seq<int>, exits: seq<int>, peak: int) {
    && 0 <= peak
    && (forall t :: Occupied(entries, exits, t) <= peak)
    && (peak == 0 || exists t :: t in entries && Occupied(entries, exits, t) == peak)
  }

  // ------------------------------------------------------------- the sweep

  function Marks(times: seq<int>, delta: int): (r: seq<Mark>)
    ensures |r| == |times|
    ensures forall i :: 0 <= i < |r| ==> r[i] == Mark(times[i], delta)
  {
    seq(|times|, i requires 0 <= i < |times| => Mark(times[i], delta))
  }

  function Timeline(entries: seq<int>, exits: seq<int>): seq<Mark> {
    Marks(entries, 1) + Marks(exits, -1)
  }

  function At(): Mark -> int {
    (m: Mark) => m.timestamp
  }

  function Sum(marks: seq<Mark>): int {
    if marks == [] then 0 else Sum(marks[..|marks| - 1]) + marks[|marks| - 1].delta
  }

  /** The largest sum of a prefix, the empty one included. */
  function HighestPrefix(marks: seq<Mark>): int {
    if marks == [] then 0
    else
      var before := HighestPrefix(marks[..|marks| - 1]);
      if before < Sum(marks) then Sum(marks) else before
  }

  method Peak(entries: seq<int>, exits: seq<int>) returns (peak: int)
    ensures IsPeak(entries, exits, peak)
  {
    var timeline := StableSort(Timeline(entries, exits), At());
    var current := 0;
    peak := 0;
    for i := 0 to |timeline|
      invariant current == Sum(timeline[..i])
      invariant peak == HighestPrefix(timeline[..i])
    {
      assert timeline[..i + 1][..i] == timeline[..i];
      current := current + timeline[i].delta;
      if peak < current {
        peak := current;
      }
    }
    assert timeline[..|timeline|] == timeline;
    SweepFindsPeak(entries, exits);
  }

  // --------------------------------------------- what a mark adds at time t

  function Weight(m: Mark, t: int): int {
    if m.delta == 1 && m.timestamp <= t then 1
    else if m.delta == -1 && m.timestamp < t then -1
    else 0
  }

  function Weights(marks: seq<Mark>, t: int): int {
    if marks == [] then 0 else Weight(marks[0], t) + Weights(marks[1..], t)
  }

  lemma {:induction false} WeightsAppend(a: seq<Mark>, b: seq<Mark>, t: int)
    ensures Weights(a + b, t) == Weights(a, t) + Weights(b, t)
  {
    if a == [] {
      assert a + b == b;
    } else {
      assert (a + b)[0] == a[0] && (a + b)[1..] == a[1..] + b;
      WeightsAppend(a[1..], b, t);
    }
  }

  lemma {:induction false} WeightsOfEntries(times: seq<int>, t: int)
    ensures Weights(Marks(times, 1), t) == AtOrBefore(times, t)
  {
    if times != [] {
      assert Marks(times, 1)[1..] == Marks(times[1..], 1);
      WeightsOfEntries(times[1..], t);
    }
  }

  lemma {:induction false} WeightsOfExits(times: seq<int>, t: int)
    ensures Weights(Marks(times, -1), t) == 0 - Before(times, t)
  {
    if times != [] {
      assert Marks(times, -1)[1..] == Marks(times[1..], -1);
      WeightsOfExits(times[1..], t);
    }
  }

  lemma {:induction false} InsertKeepsWeights(m: Mark, marks: seq<Mark>, t: int)
    ensures Weights(InsertByKey(m, marks, At()), t) == Weight(m, t) + Weights(marks, t)
  {
    if marks == [] || m.timestamp <= marks[0].timestamp {
      assert ([m] + marks)[1..] == marks;
    } else {
      InsertKeepsWeights(m, marks[1..], t);
      assert ([marks[0]] + InsertByKey(m, marks[1..], At()))[1..] == InsertByKey(m, marks[1..], At());
    }
  }

  lemma {:induction false} SortKeepsWeights(marks: seq<Mark>, t: int)
    ensures Weights(StableSort(marks, At()), t) == Weights(marks, t)
  {
    if marks != [] {
      SortKeepsWeights(marks[1..], t);
      InsertKeepsWeights(marks[0], StableSort(marks[1..], At()), t);
    }
  }

  /** The sorted marks weigh at t what the zone holds at t. */
  lemma SortedMarksWeighOccupancy(entries: seq<int>, exits: seq<int>, t: int)
    ensures Weights(StableSort(Timeline(entries, exits), At()), t) == Occupied(entries, exits, t)
  {
    SortKeepsWeights(Timeline(entries, exits), t);
    WeightsAppend(Marks(entries, 1), Marks(exits, -1), t);
    WeightsOfEntries(entries, t);
    WeightsOfExits(exits, t);
  }

  // ------------------------------------------------- entries first, on ties

  predicate IsBefore(a: Mark, b: Mark) {
    a.timestamp < b.timestamp || (a.timestamp == b.timestamp && a.delta >= b.delta)
  }

  /** In time order, and at one instant the entries ahead of the exits. */
  ghost predicate EntriesFirst(marks: seq<Mark>) {
    && (forall i :: 0 <= i < |marks| ==> marks[i].delta == 1 || marks[i].delta == -1)
    && (forall i, j :: 0 <= i < j < |marks| ==> IsBefore(marks[i], marks[j]))
  }

  ghost predicate Falling(marks: seq<Mark>) {
    forall i, j :: 0 <= i < j < |marks| ==> marks[i].delta >= marks[j].delta
  }

  lemma {:induction false} FallingWithKey(marks: seq<Mark>, t: int)
    requires Falling(marks)
    ensures Falling(WithKey(marks, At(), t))
  {
    if marks != [] {
      FallingWithKey(marks[1..], t);
      var rest := WithKey(marks[1..], At(), t);
      WithKeyElements(marks[1..], At(), t);
      forall j | 0 <= j < |rest| ensures marks[0].delta >= rest[j].delta {
        assert rest[j] in rest;
        assert rest[j] in marks[1..];
      }
    }
  }

  lemma {:induction false} TieOrder(marks: seq<Mark>, i: nat, j: nat)
    requires i < j < |marks| && marks[i].timestamp == marks[j].timestamp
    requires Falling(WithKey(marks, At(), marks[i].timestamp))
    ensures marks[i].delta >= marks[j].delta
  {
    var t := marks[i].timestamp;
    var rest := WithKey(marks[1..], At(), t);
    if i == 0 {
      WithKeyElements(marks[1..], At(), t);
      assert marks[j] in marks[1..] && marks[j] in rest;
      var at :| 0 <= at < |rest| && rest[at] == marks[j];
      var all := WithKey(marks, At(), t);
      assert At()(marks[0]) == t;
      assert all == [marks[0]] + rest;
      assert all[0] == marks[0] && all[at + 1] == marks[j];
    } else {
      var all := WithKey(marks, At(), t);
      assert rest == all || rest == all[1..];
      TieOrder(marks[1..], i - 1, j - 1);
    }
  }

  /** Entries are listed before exits and the sort is stable, so that is how ties come out. */
  lemma SortPutsEntriesFirst(entries: seq<int>, exits: seq<int>)
    ensures EntriesFirst(StableSort(Timeline(entries, exits), At()))
  {
    var marks := Timeline(entries, exits);
    var sorted := StableSort(marks, At());
    StableSortIsStable(marks, At());
    forall i | 0 <= i < |sorted| ensures sorted[i].delta == 1 || sorted[i].delta == -1 {
      assert sorted[i] in multiset(sorted);
      assert sorted[i] in marks;
    }
    forall i, j | 0 <= i < j < |sorted| ensures IsBefore(sorted[i], sorted[j]) {
      assert At()(sorted[i]) <= At()(sorted[j]);
      if sorted[i].timestamp == sorted[j].timestamp {
        FallingWithKey(marks, sorted[i].timestamp);
        TieOrder(sorted, i, j);
      }
    }
  }

  // ----------------------------------------------------- the two inequalities

  lemma {:induction false} LightRest(marks: seq<Mark>, t: int)
    requires forall i :: 0 <= i < |marks| ==> Weight(marks[i], t) >= 0
    ensures Weights(marks, t) >= 0
  {
    if marks != [] {
      LightRest(marks[1..], t);
    }
  }

  lemma {:induction false} PrefixIsLighter(marks: seq<Mark>, t: int)
    requires forall i :: 0 <= i < |marks| ==> marks[i].delta <= Weight(marks[i], t)
    ensures Sum(marks) <= Weights(marks, t)
  {
    if marks != [] {
      var k := |marks| - 1;
      PrefixIsLighter(marks[..k], t);
      WeightsAppend(marks[..k], marks[k..], t);
      assert marks == marks[..k] + marks[k..];
    }
  }

  /** A prefix that ends with an entry counts no more than the zone holds then. */
  lemma PrefixIsWithinOccupancy(marks: seq<Mark>, i: nat)
    requires EntriesFirst(marks) && i < |marks| && marks[i].delta == 1
    ensures Sum(marks[..i + 1]) <= Weights(marks, marks[i].timestamp)
  {
    var t := marks[i].timestamp;
    forall k | 0 <= k < |marks|
      ensures if k <= i then marks[k].delta <= Weight(marks[k], t) else Weight(marks[k], t) >= 0
    {
      if k < i {
        assert IsBefore(marks[k], marks[i]);
      } else if i < k {
        assert IsBefore(marks[i], marks[k]);
      }
    }
    PrefixIsLighter(marks[..i + 1], t);
    LightRest(marks[i + 1..], t);
    WeightsAppend(marks[..i + 1], marks[i + 1..], t);
    assert marks == marks[..i + 1] + marks[i + 1..];
  }

  /** The highest sum of a prefix is reached at an entry. */
  lemma {:induction false} HighestIsReached(marks: seq<Mark>) returns (i: nat)
    requires forall k :: 0 <= k < |marks| ==> marks[k].delta == 1 || marks[k].delta == -1
    requires HighestPrefix(marks) != 0
    ensures i < |marks| && marks[i].delta == 1 && HighestPrefix(marks) == Sum(marks[..i + 1])
  {
    var k := |marks| - 1;
    var before := marks[..k];
    HighestIsNatural(before);
    if HighestPrefix(marks) == HighestPrefix(before) {
      i := HighestIsReached(before);
      assert before[..i + 1] == marks[..i + 1];
    } else {
      i := k;
      assert marks[..k + 1] == marks;
      HighestBounds(before, k);
      assert before[..k] == before;
    }
  }

  lemma {:induction false} HighestIsNatural(marks: seq<Mark>)
    ensures 0 <= HighestPrefix(marks)
  {
    if marks != [] {
      HighestIsNatural(marks[..|marks| - 1]);
    }
  }

  lemma {:induction false} HighestBounds(marks: seq<Mark>, i: nat)
    requires i <= |marks|
    ensures Sum(marks[..i]) <= HighestPrefix(marks)
  {
    if i == |marks| {
      assert marks[..i] == marks;
      HighestIsNatural(marks);
    } else {
      var before := marks[..|marks| - 1];
      assert before[..i] == marks[..i];
      HighestBounds(before, i);
    }
  }

  lemma {:induction false} SettledPrefix(marks: seq<Mark>, t: int)
    requires forall i :: 0 <= i < |marks| ==> marks[i].delta == Weight(marks[i], t)
    ensures Sum(marks) == Weights(marks, t)
  {
    if marks != [] {
      var k := |marks| - 1;
      SettledPrefix(marks[..k], t);
      WeightsAppend(marks[..k], marks[k..], t);
      assert marks == marks[..k] + marks[k..];
    }
  }

  /** What the zone holds at t is the sum of some prefix. */
  lemma {:induction false} OccupancyIsAPrefix(marks: seq<Mark>, t: int)
    requires EntriesFirst(marks)
    ensures Weights(marks, t) <= HighestPrefix(marks)
  {
    if marks != [] {
      var k := |marks| - 1;
      if Weight(marks[k], t) == 0 {
        OccupancyIsAPrefix(marks[..k], t);
        WeightsAppend(marks[..k], marks[k..], t);
        assert marks == marks[..k] + marks[k..];
      } else {
        forall i | 0 <= i < |marks| ensures marks[i].delta == Weight(marks[i], t) {
          if i < k {
            assert IsBefore(marks[i], marks[k]);
          }
        }
        SettledPrefix(marks, t);
      }
    }
  }

  /** The running sum over the sorted marks peaks where the zone does, ties and exits without an entry
      included. */
  lemma SweepFindsPeak(entries: seq<int>, exits: seq<int>)
    ensures IsPeak(entries, exits, HighestPrefix(StableSort(Timeline(entries, exits), At())))
  {
    var marks := StableSort(Timeline(entries, exits), At());
    SortPutsEntriesFirst(entries, exits);
    HighestIsNatural(marks);
    forall t ensures Occupied(entries, exits, t) <= HighestPrefix(marks) {
      SortedMarksWeighOccupancy(entries, exits, t);
      OccupancyIsAPrefix(marks, t);
    }
    if HighestPrefix(marks) != 0 {
      var i := HighestIsReached(marks);
      var t := marks[i].timestamp;
      PrefixIsWithinOccupancy(marks, i);
      SortedMarksWeighOccupancy(entries, exits, t);
      EntryMarkIsAnEntry(entries, exits, marks[i]);
    }
  }

  lemma EntryMarkIsAnEntry(entries: seq<int>, exits: seq<int>, m: Mark)
    requires m in StableSort(Timeline(entries, exits), At()) && m.delta == 1
    ensures m.timestamp in entries
  {
    StableSortIsStable(Timeline(entries, exits), At());
    assert m in multiset(Timeline(entries, exits));
  }

  // ------------------------------------------------------ the whole metric

  function Times(events: seq<Event>, kind: EventType): seq<int> {
    if events == [] then []
    else (if events[0].kind == kind then [events[0].timestamp] else []) + Times(events[1..], kind)
  }

  function Itself(): int -> int {
    (t: int) => t
  }

  function Total(times: seq<int>): int {
    if times == [] then 0 else times[0] + Total(times[1..])
  }

  function Durations(entries: seq<int>, exits: seq<int>): seq<int> {
    if entries == [] || exits == [] then [] else [exits[0] - entries[0]] + Durations(entries[1..], exits[1..])
  }

  function Mean(total: int, count: nat): real {
    if count == 0 then 0.0 else total as real / count as real
  }

  /** The mean over the pairs that zip makes. */
  function AverageDwellTime(entries: seq<int>, exits: seq<int>): real {
    var durations := Durations(entries, exits);
    Mean(Total(durations), |durations|)
  }

  method Aggregate(events: seq<Event>) returns (r: Result<OccupancyMetric, MetricError>)
    ensures var entries, exits := StableSort(Times(events, Enter), Itself()), StableSort(Times(events, Exit), Itself());
      match r
      case Success(m) =>
        && m.dwellTimeAvg == AverageDwellTime(entries, exits) >= 0.0
        && IsPeak(entries, exits, m.occupancyPeak)
        && m.totalCount == |Times(events, Enter)|
      case Failure(_) => AverageDwellTime(entries, exits) < 0.0
  {
    var entries := StableSort(Times(events, Enter), Itself());
    var exits := StableSort(Times(events, Exit), Itself());
    var average := AverageDwellTime(entries, exits);
    var peak := Peak(entries, exits);
    StableSortIsStable(Times(events, Enter), Itself());
    assert |entries| == |multiset(entries)|;
    if average < 0.0 {
      return Failure(NegativeDwellTime);
    }
    return Success(OccupancyMetric(average, peak, |entries|));
  }

  /** The instants of a kind of event, each as often as there are such events at it. */
  lemma {:induction false} TimesAreOfKind(events: seq<Event>, kind: EventType, t: int)
    ensures multiset(Times(events, kind))[t] == multiset(events)[Event(kind, t)]
  {
    if events != [] {
      TimesAreOfKind(events[1..], kind, t);
      CountOfHead(events, Event(kind, t));
      if events[0].kind == kind {
        CountOfHead(Times(events, kind), t);
      }
    }
  }

  lemma {:induction false} DurationsOfPairs(entries: seq<int>, exits: seq<int>, pairs: nat)
    requires pairs <= |entries| && pairs <= |exits| && (pairs == |entries| || pairs == |exits|)
    ensures |Durations(entries, exits)| == pairs
    ensures Total(Durations(entries, exits)) == Total(exits[..pairs]) - Total(entries[..pairs])
  {
    if pairs > 0 {
      DurationsOfPairs(entries[1..], exits[1..], pairs - 1);
      assert entries[..pairs][1..] == entries[1..][..pairs - 1] && exits[..pairs][1..] == exits[1..][..pairs - 1];
    }
  }

  /** The average for any two lists: over the first entries and the first exits, as many as there are of
      both, and zero when one list is empty. */
  lemma AverageIsOverPairs(entries: seq<int>, exits: seq<int>, pairs: nat)
    requires pairs == if |entries| < |exits| then |entries| else |exits|
    ensures AverageDwellTime(entries, exits) ==
      if pairs == 0 then 0.0 else (Total(exits[..pairs]) - Total(entries[..pairs])) as real / pairs as real
  {
    DurationsOfPairs(entries, exits, pairs);
  }

  /** One stay of one person: from the entry to the exit. */
  datatype Visit = Visit(enter: int, leave: int)

  function Enters(visits: seq<Visit>): seq<int> {
    if visits == [] then [] else [visits[0].enter] + Enters(visits[1..])
  }

  function Leaves(visits: seq<Visit>): seq<int> {
    if visits == [] then [] else [visits[0].leave] + Leaves(visits[1..])
  }

  /** The number of visits under way at t, both ends included. */
  function Present(visits: seq<Visit>, t: int): nat {
    if visits == [] then 0
    else (if visits[0].enter <= t <= visits[0].leave then 1 else 0) + Present(visits[1..], t)
  }

  function Stayed(visits: seq<Visit>): int {
    if visits == [] then 0 else visits[0].leave - visits[0].enter + Stayed(visits[1..])
  }

  /** The events are the two ends of each visit, in any order, with any other events among them. */
  ghost predicate AreEventsOf(events: seq<Event>, visits: seq<Visit>) {
    && multiset(Times(events, Enter)) == multiset(Enters(visits))
    && multiset(Times(events, Exit)) == multiset(Leaves(visits))
    && forall v :: v in visits ==> v.enter <= v.leave
  }

  lemma {:induction false} WithKeyRepeats(times: seq<int>, k: int)
    ensures WithKey(times, Itself(), k) == seq(multiset(times)[k], _ => k)
  {
    if times != [] {
      WithKeyRepeats(times[1..], k);
      CountOfHead(times, k);
      if times[0] == k {
        var more := multiset(times[1..])[k];
        assert seq(more + 1, _ => k) == [k] + seq(more, _ => k);
      }
    }
  }

  /** Sorted times depend only on which times there are. */
  lemma SortForgetsOrder(a: seq<int>, b: seq<int>)
    requires multiset(a) == multiset(b)
    ensures StableSort(a, Itself()) == StableSort(b, Itself())
  {
    StableSortIsStable(a, Itself());
    StableSortIsStable(b, Itself());
    forall k ensures WithKey(a, Itself(), k) == WithKey(b, Itself(), k) {
      WithKeyRepeats(a, k);
      WithKeyRepeats(b, k);
    }
    StableOrderIsUnique(StableSort(a, Itself()), StableSort(b, Itself()), Itself());
  }

  lemma {:induction false} InsertAdds(x: int, times: seq<int>, t: int)
    ensures var r := InsertByKey(x, times, Itself());
      && |r| == |times| + 1
      && Total(r) == x + Total(times)
      && AtOrBefore(r, t) == (if x <= t then 1 else 0) + AtOrBefore(times, t)
      && Before(r, t) == (if x < t then 1 else 0) + Before(times, t)
  {
    if times == [] || x <= times[0] {
      assert ([x] + times)[1..] == times;
    } else {
      InsertAdds(x, times[1..], t);
      assert ([times[0]] + InsertByKey(x, times[1..], Itself()))[1..] == InsertByKey(x, times[1..], Itself());
    }
  }

  lemma {:induction false} SortKeepsCounts(times: seq<int>, t: int)
    ensures var r := StableSort(times, Itself());
      && |r| == |times|
      && Total(r) == Total(times)
      && AtOrBefore(r, t) == AtOrBefore(times, t)
      && Before(r, t) == Before(times, t)
  {
    if times != [] {
      SortKeepsCounts(times[1..], t);
      InsertAdds(times[0], StableSort(times[1..], Itself()), t);
    }
  }

  lemma {:induction false} DurationsAddUp(entries: seq<int>, exits: seq<int>)
    requires |entries| == |exits|
    ensures |Durations(entries, exits)| == |entries|
    ensures Total(Durations(entries, exits)) == Total(exits) - Total(entries)
  {
    if entries != [] {
      DurationsAddUp(entries[1..], exits[1..]);
      assert Durations(entries, exits)[1..] == Durations(entries[1..], exits[1..]);
    }
  }

  lemma {:induction false} VisitsAddUp(visits: seq<Visit>, t: int)
    requires forall v :: v in visits ==> v.enter <= v.leave
    ensures |Enters(visits)| == |Leaves(visits)| == |visits|
    ensures Total(Leaves(visits)) - Total(Enters(visits)) == Stayed(visits) >= 0
    ensures Occupied(Enters(visits), Leaves(visits), t) == Present(visits, t)
  {
    if visits != [] {
      assert visits[0] in visits;
      VisitsAddUp(visits[1..], t);
      assert Enters(visits)[1..] == Enters(visits[1..]);
      assert Leaves(visits)[1..] == Leaves(visits[1..]);
    }
  }

  lemma SortedVisits(events: seq<Event>, visits: seq<Visit>, t: int)
    requires AreEventsOf(events, visits)
    ensures var entries, exits := StableSort(Times(events, Enter), Itself()), StableSort(Times(events, Exit), Itself());
      && |Times(events, Enter)| == |entries| == |exits| == |visits|
      && Total(exits) - Total(entries) == Stayed(visits) >= 0
      && Occupied(entries, exits, t) == Present(visits, t)
  {
    SortForgetsOrder(Times(events, Enter), Enters(visits));
    SortForgetsOrder(Times(events, Exit), Leaves(visits));
    SortKeepsCounts(Times(events, Enter), t);
    SortKeepsCounts(Enters(visits), t);
    SortKeepsCounts(Leaves(visits), t);
    VisitsAddUp(visits, t);
  }

  lemma MeanIsNatural(total: int, count: nat)
    requires 0 <= total
    ensures Mean(total, count) >= 0.0
  {
  }

  /** Pairing the first exit with the first entry mixes people up, yet when every visit lies in the
      window the average is the true mean stay and the metric is not refused. */
  lemma AverageIsTheMeanStay(events: seq<Event>, visits: seq<Visit>)
    requires AreEventsOf(events, visits)
    ensures var average := AverageDwellTime(StableSort(Times(events, Enter), Itself()),
                                            StableSort(Times(events, Exit), Itself()));
      average == Mean(Stayed(visits), |visits|) >= 0.0
  {
    SortedVisits(events, visits, 0);
    DurationsAddUp(StableSort(Times(events, Enter), Itself()), StableSort(Times(events, Exit), Itself()));
    MeanIsNatural(Stayed(visits), |visits|);
  }

  /** And the peak is the largest number of visits under way at one instant. */
  lemma PeakIsTheMostPresent(events: seq<Event>, visits: seq<Visit>, peak: int)
    requires AreEventsOf(events, visits)
    requires IsPeak(StableSort(Times(events, Enter), Itself()), StableSort(Times(events, Exit), Itself()), peak)
    ensures forall t :: Present(visits, t) <= peak
    ensures exists t :: Present(visits, t) == peak
  {
    var entries, exits := StableSort(Times(events, Enter), Itself()), StableSort(Times(events, Exit), Itself());
    forall t ensures Occupied(entries, exits, t) == Present(visits, t) {
      SortedVisits(events, visits, t);
    }
    if peak == 0 {
      assert Present(visits, 0) == 0;
    } else {
      var t :| t in entries && Occupied(entries, exits, t) == peak;
      assert Present(visits, t) == peak;
    }
  }
}
