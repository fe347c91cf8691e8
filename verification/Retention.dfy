/** What a purge sweep is to delete: the LGPD term and the first-in-first-out disk quota. */
module Retention {
  import opened Outcomes
  import opened Sequences

  type Time = int
  type ClipId = string
  type Path = string

  datatype MediaClip = MediaClip(
    clipId: ClipId,
    eventId: string,
    filePath: Path,
    isRetained: bool,
    isLockedForAudit: bool,
    createdAt: Time)

  datatype PurgeCandidate = PurgeCandidate(clip: MediaClip, sizeBytes: nat)

  datatype PurgeReason = RetentionPeriodExpired | DiskQuotaExceeded

  datatype SweepError = DiskQuotaExceededError

  // -------------------------------------------------------------- policies

  datatype MediaKind = VideoClip | Snapshot

  function LastDot(path: Path): int
    ensures -1 <= LastDot(path) < |path|
  {
    if path == [] then -1
    else if path[|path| - 1] == '.' then |path| - 1
    else LastDot(path[..|path| - 1])
  }

  function Lower(s: string): string {
    if s == [] then [] else [if 'A' <= s[0] <= 'Z' then s[0] - 'A' + 'a' else s[0]] + Lower(s[1..])
  }

  function MediaKindOf(path: Path): MediaKind {
    var dot := LastDot(path);
    if dot < 0 then VideoClip
    else
      var extension := Lower(path[dot + 1..]);
      if extension == "jpg" || extension == "jpeg" || extension == "png" then Snapshot else VideoClip
  }

  datatype RetentionTerms = RetentionTerms(clipMaxAge: int, snapshotMaxAge: int) {
    function MaxAgeFor(kind: MediaKind): int {
      if kind == Snapshot then snapshotMaxAge else clipMaxAge
    }

    /** A clip of exactly the maximum age has expired. */
    predicate HasExpired(clip: MediaClip, now: Time) {
      now - clip.createdAt >= MaxAgeFor(MediaKindOf(clip.filePath))
    }
  }
  type RetentionPolicy = p: RetentionTerms | p.clipMaxAge > 0 && p.snapshotMaxAge > 0 witness RetentionTerms(1, 1)

  /** Used and available bytes of the volume; the capacity is their sum. */
  datatype Usage = Usage(usedBytes: nat, availableBytes: nat) {
    function CapacityBytes(): nat {
      usedBytes + availableBytes
    }

    function UsedRatio(): real
      requires CapacityBytes() > 0
    {
      usedBytes as real / CapacityBytes() as real
    }

    function AfterFreeing(bytes: nat): (u: Usage)
      ensures u.CapacityBytes() == CapacityBytes()
    {
      var freed := if bytes < usedBytes then bytes else usedBytes;
      Usage(usedBytes - freed, availableBytes + freed)
    }
  }
  type DiskUsage = u: Usage | u.CapacityBytes() > 0 witness Usage(0, 1)

  /** Freeing bit by bit projects what freeing all at once projects. */
  lemma FreeingAddsUp(usage: Usage, a: nat, b: nat)
    ensures usage.AfterFreeing(a).AfterFreeing(b) == usage.AfterFreeing(a + b)
  {
  }

  datatype QuotaTerms = QuotaTerms(triggerRatio: real, targetRatio: real) {
    predicate IsExceededBy(usage: DiskUsage) {
      usage.UsedRatio() >= triggerRatio
    }

    predicate IsSatisfiedBy(usage: DiskUsage) {
      usage.UsedRatio() < targetRatio
    }
  }
  type QuotaPolicy = q: QuotaTerms | 0.0 < q.targetRatio <= q.triggerRatio <= 1.0 witness QuotaTerms(0.85, 0.80)

  predicate IsEligibleForPurge(clip: MediaClip) {
    clip.isRetained && !clip.isLockedForAudit
  }

  // ------------------------------------------------------------ strategies

  datatype RetentionContext = RetentionContext(now: Time, diskUsage: DiskUsage)

  datatype Strategy = Lgpd(retention: RetentionPolicy) | DiskQuotaFifo(quota: QuotaPolicy) {
    function Reason(): PurgeReason {
      if Lgpd? then RetentionPeriodExpired else DiskQuotaExceeded
    }
  }

  function Expired(candidates: seq<PurgeCandidate>, policy: RetentionPolicy, now: Time): seq<PurgeCandidate> {
    Filter(candidates, (c: PurgeCandidate) => IsEligibleForPurge(c.clip) && policy.HasExpired(c.clip, now))
  }

  function Eligible(candidates: seq<PurgeCandidate>): seq<PurgeCandidate> {
    Filter(candidates, (c: PurgeCandidate) => IsEligibleForPurge(c.clip))
  }

  function CreatedAt(c: PurgeCandidate): int {
    c.clip.createdAt
  }

  function OldestFirst(candidates: seq<PurgeCandidate>): seq<PurgeCandidate> {
    StableSort(Eligible(candidates), CreatedAt)
  }

  function SizeOf(candidates: seq<PurgeCandidate>): nat {
    if candidates == [] then 0
    else SizeOf(candidates[..|candidates| - 1]) + candidates[|candidates| - 1].sizeBytes
  }

  /** How many of the candidates, in order, are taken: the least number whose freeing brings the
      projection below the target, or all of them. */
  ghost predicate IsQuotaCut(policy: QuotaPolicy, candidates: seq<PurgeCandidate>, usage: DiskUsage, n: nat) {
    && n <= |candidates|
    && (forall k :: 0 <= k < n ==> !policy.IsSatisfiedBy(usage.AfterFreeing(SizeOf(candidates[..k]))))
    && (n < |candidates| ==> policy.IsSatisfiedBy(usage.AfterFreeing(SizeOf(candidates[..n]))))
  }

  function QuotaCut(policy: QuotaPolicy, candidates: seq<PurgeCandidate>, usage: DiskUsage): (n: nat)
    ensures IsQuotaCut(policy, candidates, usage, n)
  {
    CutFrom(policy, candidates, usage, 0)
  }

  function CutFrom(policy: QuotaPolicy, candidates: seq<PurgeCandidate>, usage: DiskUsage, k: nat): (n: nat)
    requires k <= |candidates|
    requires forall j :: 0 <= j < k ==> !policy.IsSatisfiedBy(usage.AfterFreeing(SizeOf(candidates[..j])))
    ensures IsQuotaCut(policy, candidates, usage, n)
    decreases |candidates| - k
  {
    if k == |candidates| || policy.IsSatisfiedBy(usage.AfterFreeing(SizeOf(candidates[..k]))) then k
    else CutFrom(policy, candidates, usage, k + 1)
  }

  lemma QuotaCutIsUnique(policy: QuotaPolicy, candidates: seq<PurgeCandidate>, usage: DiskUsage, n: nat, m: nat)
    requires IsQuotaCut(policy, candidates, usage, n) && IsQuotaCut(policy, candidates, usage, m)
    ensures n == m
  {
  }

  function Select(strategy: Strategy, candidates: seq<PurgeCandidate>, context: RetentionContext)
    : Result<seq<PurgeCandidate>, SweepError>
  {
    match strategy
    case Lgpd(policy) => Success(Expired(candidates, policy, context.now))
    case DiskQuotaFifo(policy) =>
      if !policy.IsExceededBy(context.diskUsage) then Success([])
      else
        var oldestFirst := OldestFirst(candidates);
        if oldestFirst == [] then Failure(DiskQuotaExceededError)
        else Success(oldestFirst[..QuotaCut(policy, oldestFirst, context.diskUsage)])
  }

  /** The quota's choice without its loops: with the trigger reached, the shortest prefix of the
      eligible candidates, oldest first and in the given order among equals, whose freeing is
      projected below the target; all of them when even that is not enough; an alert when there is
      none; nothing when the trigger is not reached. */
  lemma QuotaSelectionIsShortestPrefix(policy: QuotaPolicy, candidates: seq<PurgeCandidate>, context: RetentionContext)
    ensures var r := Select(DiskQuotaFifo(policy), candidates, context);
      if !policy.IsExceededBy(context.diskUsage) then r == Success([])
      else if forall c :: c in candidates ==> !IsEligibleForPurge(c.clip) then r == Failure(DiskQuotaExceededError)
      else
        exists order: seq<PurgeCandidate>, n: nat ::
          && n > 0 && IsQuotaCut(policy, order, context.diskUsage, n) && r == Success(order[..n])
          && SortedBy(order, CreatedAt)
          && multiset(order) == multiset(Eligible(candidates))
          && forall t :: WithKey(order, CreatedAt, t) == WithKey(Eligible(candidates), CreatedAt, t)
  {
    var eligible, order := Eligible(candidates), OldestFirst(candidates);
    FilterElements(candidates, (c: PurgeCandidate) => IsEligibleForPurge(c.clip));
    StableSortIsStable(eligible, CreatedAt);
    if eligible != [] {
      assert eligible[0] in multiset(order);
      assert eligible[0] in candidates;
    }
    if policy.IsExceededBy(context.diskUsage) && eligible != [] {
      var n := QuotaCut(policy, order, context.diskUsage);
      ExceededIsNotSatisfied(policy, context.diskUsage);
      assert context.diskUsage.AfterFreeing(SizeOf(order[..0])) == context.diskUsage;
      assert IsQuotaCut(policy, order, context.diskUsage, n);
    } else if eligible == [] {
      assert multiset(order) == multiset{};
      assert order == [];
    }
  }

  /** Hysteresis: a volume below the target is not at the trigger. */
  lemma ExceededIsNotSatisfied(policy: QuotaPolicy, usage: DiskUsage)
    ensures !(policy.IsExceededBy(usage) && policy.IsSatisfiedBy(usage))
  {
  }

  // ----------------------------------------------------- as the code runs

  class LgpdRetentionStrategy {
    const policy: RetentionPolicy

    constructor (policy: RetentionPolicy)
      ensures this.policy == policy
    {
      this.policy := policy;
    }

    method SelectClipsToPurge(candidates: seq<PurgeCandidate>, context: RetentionContext)
      returns (expired: seq<PurgeCandidate>)
      ensures Success(expired) == Select(Lgpd(policy), candidates, context)
    {
      expired := [];
      for i := 0 to |candidates|
        invariant expired == Expired(candidates[..i], policy, context.now)
      {
        var candidate := candidates[i];
        FilterAppend(candidates[..i], [candidate],
                     (c: PurgeCandidate) => IsEligibleForPurge(c.clip) && policy.HasExpired(c.clip, context.now));
        assert candidates[..i + 1] == candidates[..i] + [candidate];
        if IsEligibleForPurge(candidate.clip) && policy.HasExpired(candidate.clip, context.now) {
          expired := expired + [candidate];
        }
      }
      assert candidates[..|candidates|] == candidates;
    }
  }

  class DiskQuotaFifoStrategy {
    const policy: QuotaPolicy

    constructor (policy: QuotaPolicy)
      ensures this.policy == policy
    {
      this.policy := policy;
    }

    method SelectClipsToPurge(candidates: seq<PurgeCandidate>, context: RetentionContext)
      returns (r: Result<seq<PurgeCandidate>, SweepError>)
      ensures r == Select(DiskQuotaFifo(policy), candidates, context)
    {
      if !policy.IsExceededBy(context.diskUsage) {
        return Success([]);
      }
      var oldestFirst := EligibleOldestFirst(candidates);
      if oldestFirst == [] {
        return Failure(DiskQuotaExceededError);
      }
      var selected := TakeUntilTargetIsReached(oldestFirst, context.diskUsage);
      return Success(selected);
    }

    static method EligibleOldestFirst(candidates: seq<PurgeCandidate>) returns (eligible: seq<PurgeCandidate>)
      ensures eligible == OldestFirst(candidates)
    {
      eligible := [];
      for i := 0 to |candidates|
        invariant eligible == Eligible(candidates[..i])
      {
        var candidate := candidates[i];
        FilterAppend(candidates[..i], [candidate], (c: PurgeCandidate) => IsEligibleForPurge(c.clip));
        assert candidates[..i + 1] == candidates[..i] + [candidate];
        if IsEligibleForPurge(candidate.clip) {
          eligible := eligible + [candidate];
        }
      }
      assert candidates[..|candidates|] == candidates;
      eligible := StableSort(eligible, CreatedAt);
    }

    method TakeUntilTargetIsReached(oldestFirst: seq<PurgeCandidate>, usage: DiskUsage)
      returns (selected: seq<PurgeCandidate>)
      ensures selected == oldestFirst[..QuotaCut(policy, oldestFirst, usage)]
    {
      selected := [];
      var projected: DiskUsage := usage;
      var i := 0;
      while i < |oldestFirst| && !policy.IsSatisfiedBy(projected)
        invariant 0 <= i <= |oldestFirst| && selected == oldestFirst[..i]
        invariant projected == usage.AfterFreeing(SizeOf(oldestFirst[..i]))
        invariant forall k :: 0 <= k < i ==> !policy.IsSatisfiedBy(usage.AfterFreeing(SizeOf(oldestFirst[..k])))
      {
        assert oldestFirst[..i + 1][..i] == oldestFirst[..i];
        selected := selected + [oldestFirst[i]];
        projected := projected.AfterFreeing(oldestFirst[i].sizeBytes);
        i := i + 1;
      }
      QuotaCutIsUnique(policy, oldestFirst, usage, i, QuotaCut(policy, oldestFirst, usage));
    }
  }
}
