/** What the two strategies choose, in plain terms: record fields, dates, file names, bytes. */
module PurgeSelection {
  import opened Outcomes
  import opened Sequences
  import opened Retention

  // ---------------------------------------------------- kinds of media

  predicate IsLetter(c: char, lower: char, upper: char) {
    c == lower || c == upper
  }

  /** jpg, jpeg or png, each letter in upper or lower case. */
  predicate NamesPicture(s: string) {
    || (|s| == 3 && IsLetter(s[0], 'j', 'J') && IsLetter(s[1], 'p', 'P') && IsLetter(s[2], 'g', 'G'))
    || (|s| == 4 && IsLetter(s[0], 'j', 'J') && IsLetter(s[1], 'p', 'P') && IsLetter(s[2], 'e', 'E')
        && IsLetter(s[3], 'g', 'G'))
    || (|s| == 3 && IsLetter(s[0], 'p', 'P') && IsLetter(s[1], 'n', 'N') && IsLetter(s[2], 'g', 'G'))
  }

  predicate EndsIn(path: Path, stem: string, extension: string) {
    path == stem + "." + extension
  }

  ghost predicate IsPicture(path: Path) {
    exists stem, extension :: EndsIn(path, stem, extension) && NamesPicture(extension)
  }

  lemma {:induction false} LastDotIsLast(path: Path)
    ensures LastDot(path) >= 0 ==> path[LastDot(path)] == '.'
    ensures forall i :: LastDot(path) < i < |path| ==> path[i] != '.'
  {
    if path != [] {
      LastDotIsLast(path[..|path| - 1]);
    }
  }

  lemma {:induction false} LowerLetters(s: string)
    ensures |Lower(s)| == |s|
    ensures forall i :: 0 <= i < |s| ==> Lower(s)[i] == if 'A' <= s[i] <= 'Z' then s[i] - 'A' + 'a' else s[i]
  {
    if s != [] {
      LowerLetters(s[1..]);
    }
  }

  lemma LowerNamesPicture(extension: string)
    ensures NamesPicture(extension) <==>
      Lower(extension) == "jpg" || Lower(extension) == "jpeg" || Lower(extension) == "png"
  {
    LowerLetters(extension);
  }

  lemma LastDotIsBeforeExtension(path: Path, stem: string, extension: string)
    requires EndsIn(path, stem, extension) && forall i :: 0 <= i < |extension| ==> extension[i] != '.'
    ensures LastDot(path) == |stem| && path[|stem| + 1..] == extension
  {
    LastDotIsLast(path);
    assert path[|stem|] == '.';
    assert forall i :: |stem| < i < |path| ==> path[i] == extension[i - |stem| - 1];
  }

  lemma KindIsByLastDot(path: Path)
    ensures MediaKindOf(path) == Snapshot <==> LastDot(path) >= 0 && NamesPicture(path[LastDot(path) + 1..])
  {
    if LastDot(path) >= 0 {
      LowerNamesPicture(path[LastDot(path) + 1..]);
    }
  }

  lemma PictureHasNoDot(extension: string)
    requires NamesPicture(extension)
    ensures forall i :: 0 <= i < |extension| ==> extension[i] != '.'
  {
  }

  lemma PictureByLastDot(path: Path)
    ensures IsPicture(path) <==> LastDot(path) >= 0 && NamesPicture(path[LastDot(path) + 1..])
  {
    LastDotIsLast(path);
    var dot := LastDot(path);
    if dot >= 0 {
      assert EndsIn(path, path[..dot], path[dot + 1..]);
    }
    if stem, extension :| EndsIn(path, stem, extension) && NamesPicture(extension) {
      PictureHasNoDot(extension);
      LastDotIsBeforeExtension(path, stem, extension);
    }
  }

  lemma KindIsByExtension(path: Path)
    ensures MediaKindOf(path) == Snapshot <==> IsPicture(path)
  {
    KindIsByLastDot(path);
    PictureByLastDot(path);
  }

  // ------------------------------------------------------------ the term

  /** The term of the clip, counted from its creation, is over at that instant. */
  ghost predicate IsTermOver(clip: MediaClip, terms: RetentionTerms, now: Time) {
    clip.createdAt + (if IsPicture(clip.filePath) then terms.snapshotMaxAge else terms.clipMaxAge) <= now
  }

  ghost predicate IsDue(clip: MediaClip, terms: RetentionTerms, now: Time) {
    clip.isRetained && !clip.isLockedForAudit && IsTermOver(clip, terms, now)
  }

  lemma DueMeansExpired(clip: MediaClip, policy: RetentionPolicy, now: Time)
    ensures IsEligibleForPurge(clip) && policy.HasExpired(clip, now) <==> IsDue(clip, policy, now)
  {
    KindIsByExtension(clip.filePath);
  }

  /** The LGPD strategy selects the candidates that are retained, not locked, and whose term is over, each
      as often as it is a candidate and in that order; it never raises the alert. */
  lemma LgpdSelectsTheDue(policy: RetentionPolicy, candidates: seq<PurgeCandidate>, context: RetentionContext)
    ensures Select(Lgpd(policy), candidates, context)
      == Success(Filter(candidates, (c: PurgeCandidate) => IsDue(c.clip, policy, context.now)))
  {
    forall c | c in candidates
      ensures IsEligibleForPurge(c.clip) && policy.HasExpired(c.clip, context.now) <==>
        IsDue(c.clip, policy, context.now)
    {
      DueMeansExpired(c.clip, policy, context.now);
    }
    FilterAlike(candidates,
                (c: PurgeCandidate) => IsEligibleForPurge(c.clip) && policy.HasExpired(c.clip, context.now),
                (c: PurgeCandidate) => IsDue(c.clip, policy, context.now));
  }

  /** Whoever is selected at one instant is selected at every later one; nobody is before both terms. */
  lemma SelectionGrowsWithTime(policy: RetentionPolicy, candidates: seq<PurgeCandidate>, sooner: RetentionContext,
                               later: RetentionContext, c: PurgeCandidate)
    requires sooner.now <= later.now
    ensures c in Select(Lgpd(policy), candidates, sooner).value ==> c in Select(Lgpd(policy), candidates, later).value
    ensures c in Select(Lgpd(policy), candidates, sooner).value ==>
      || c.clip.createdAt + policy.clipMaxAge <= sooner.now
      || c.clip.createdAt + policy.snapshotMaxAge <= sooner.now
  {
    LgpdSelectsTheDue(policy, candidates, sooner);
    LgpdSelectsTheDue(policy, candidates, later);
    FilterElements(candidates, (d: PurgeCandidate) => IsDue(d.clip, policy, sooner.now));
    FilterElements(candidates, (d: PurgeCandidate) => IsDue(d.clip, policy, later.now));
  }

  // ------------------------------------------------------------ the quota

  /** The used part of the volume, once some bytes are freed, against a share of its capacity. */
  predicate UsesLessThan(usage: DiskUsage, freed: nat, ratio: real) {
    var used := if freed < usage.usedBytes then usage.usedBytes - freed else 0;
    used as real < ratio * (usage.usedBytes + usage.availableBytes) as real
  }

  lemma RatioIsShare(used: nat, capacity: nat, ratio: real)
    requires capacity > 0
    ensures used as real / capacity as real < ratio <==> (used as real) < ratio * capacity as real
  {
    var share := used as real / capacity as real;
    assert share * capacity as real == used as real;
    if share < ratio {
      assert share * capacity as real < ratio * capacity as real;
    } else {
      assert share * capacity as real >= ratio * capacity as real;
    }
  }

  lemma PolicyInBytes(policy: QuotaPolicy, usage: DiskUsage, freed: nat)
    ensures policy.IsExceededBy(usage) <==> !UsesLessThan(usage, 0, policy.triggerRatio)
    ensures policy.IsSatisfiedBy(usage.AfterFreeing(freed)) <==> UsesLessThan(usage, freed, policy.targetRatio)
  {
    RatioIsShare(usage.usedBytes, usage.CapacityBytes(), policy.triggerRatio);
    RatioIsShare(usage.AfterFreeing(freed).usedBytes, usage.CapacityBytes(), policy.targetRatio);
  }

  /** The candidates that are retained and not locked, oldest first, in the given order among equals. */
  ghost predicate IsOldestFirst(order: seq<PurgeCandidate>, candidates: seq<PurgeCandidate>) {
    var eligible := Filter(candidates, (c: PurgeCandidate) => c.clip.isRetained && !c.clip.isLockedForAudit);
    && (forall i, j :: 0 <= i < j < |order| ==> order[i].clip.createdAt <= order[j].clip.createdAt)
    && multiset(order) == multiset(eligible)
    && forall t :: WithKey(order, CreatedAt, t) == WithKey(eligible, CreatedAt, t)
  }

  /** n is the least number of candidates, from the front, whose sizes bring the use below the share. */
  ghost predicate IsShortest(order: seq<PurgeCandidate>, usage: DiskUsage, ratio: real, n: nat) {
    && n <= |order|
    && (forall k :: 0 <= k < n ==> !UsesLessThan(usage, SizeOf(order[..k]), ratio))
    && (n < |order| ==> UsesLessThan(usage, SizeOf(order[..n]), ratio))
  }

  lemma CutIsShortest(policy: QuotaPolicy, order: seq<PurgeCandidate>, usage: DiskUsage, n: nat)
    requires IsQuotaCut(policy, order, usage, n)
    ensures IsShortest(order, usage, policy.targetRatio, n)
  {
    forall k | 0 <= k <= n
      ensures policy.IsSatisfiedBy(usage.AfterFreeing(SizeOf(order[..k])))
        <==> UsesLessThan(usage, SizeOf(order[..k]), policy.targetRatio)
    {
      PolicyInBytes(policy, usage, SizeOf(order[..k]));
    }
  }

  lemma OldestFirstIsSorted(candidates: seq<PurgeCandidate>)
    ensures IsOldestFirst(OldestFirst(candidates), candidates)
    ensures OldestFirst(candidates) == [] <==>
      forall c :: c in candidates ==> !c.clip.isRetained || c.clip.isLockedForAudit
  {
    var keep := (c: PurgeCandidate) => c.clip.isRetained && !c.clip.isLockedForAudit;
    FilterAlike(candidates, (c: PurgeCandidate) => IsEligibleForPurge(c.clip), keep);
    FilterElements(candidates, keep);
    StableSortIsStable(Eligible(candidates), CreatedAt);
    var order := OldestFirst(candidates);
    forall i, j | 0 <= i < j < |order| ensures order[i].clip.createdAt <= order[j].clip.createdAt {
      assert CreatedAt(order[i]) <= CreatedAt(order[j]);
    }
    assert order == [] <==> Eligible(candidates) == [] by {
      assert |order| == |multiset(order)| && |Eligible(candidates)| == |multiset(Eligible(candidates))|;
    }
    NoneKept(candidates, keep);
  }

  lemma NoneKept(candidates: seq<PurgeCandidate>, keep: PurgeCandidate -> bool)
    ensures Filter(candidates, keep) == [] <==> forall c :: c in candidates ==> !keep(c)
  {
    FilterElements(candidates, keep);
    if Filter(candidates, keep) != [] {
      assert Filter(candidates, keep)[0] in candidates;
    }
  }

  lemma QuotaChoice(policy: QuotaPolicy, candidates: seq<PurgeCandidate>, context: RetentionContext) returns (n: nat)
    requires policy.IsExceededBy(context.diskUsage) && OldestFirst(candidates) != []
    ensures IsShortest(OldestFirst(candidates), context.diskUsage, policy.targetRatio, n) && n > 0
    ensures Select(DiskQuotaFifo(policy), candidates, context) == Success(OldestFirst(candidates)[..n])
  {
    var order := OldestFirst(candidates);
    n := QuotaCut(policy, order, context.diskUsage);
    CutIsShortest(policy, order, context.diskUsage, n);
    ExceededIsNotSatisfied(policy, context.diskUsage);
    assert context.diskUsage.AfterFreeing(SizeOf(order[..0])) == context.diskUsage;
  }

  /** The quota strategy, in bytes: nothing below the trigger; from the trigger on, an alert when nothing
      may be purged, and else the shortest front of the candidates, oldest first, that brings the use
      below the target, or all of them. */
  lemma QuotaSelectsInBytes(policy: QuotaPolicy, candidates: seq<PurgeCandidate>, context: RetentionContext)
    ensures var r := Select(DiskQuotaFifo(policy), candidates, context);
      if UsesLessThan(context.diskUsage, 0, policy.triggerRatio) then r == Success([])
      else if forall c :: c in candidates ==> !c.clip.isRetained || c.clip.isLockedForAudit
      then r == Failure(DiskQuotaExceededError)
      else
        exists order: seq<PurgeCandidate>, n: nat ::
          && IsOldestFirst(order, candidates)
          && IsShortest(order, context.diskUsage, policy.targetRatio, n) && n > 0 && r == Success(order[..n])
  {
    PolicyInBytes(policy, context.diskUsage, 0);
    if policy.IsExceededBy(context.diskUsage) {
      OldestFirstIsSorted(candidates);
      if OldestFirst(candidates) != [] {
        var n := QuotaChoice(policy, candidates, context);
      }
    }
  }

}
