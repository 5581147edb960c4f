/** Consequences of the evidence refinement: what the log promises over whole runs. */
module EvidenceProperties {
  import opened Prelude
  import opened Evidence

  // ---------------------------------------------------------------------
  // The clock
  // ---------------------------------------------------------------------

  /** The clock of a run never goes back, and `now` is not before its end. */
  ghost predicate Nondecreasing(h: seq<Event>, now: nat) {
    && (forall i, j | 0 <= i < j < |h| && h[i].Observed? && h[j].Observed? :: h[i].now <= h[j].now)
    && (forall i | 0 <= i < |h| && h[i].Observed? :: h[i].now <= now)
  }

  /** Deciding no earlier than every Qualify makes the decision the documented one,
      whatever order the observations came in. */
  lemma DecidesAsDocumented(h: seq<Event>, p: Policy, now: nat)
    requires forall k | 0 <= k < |h| && IsQualify(h[k]) :: h[k].now <= now
    ensures Check(Replay(h, p), p, now) == Verdict(h, p, now)
  {
    CheckMeetsVerdict(h, p, now);
    assert Unexpired(h, p, now) == InWindow(h, p, now);
  }

  /** Under any clock the decision differs from the documented one in one way only: it may
      refuse for lack of samples where the documented policy would allow. */
  lemma ClockOnlyRefuses(h: seq<Event>, p: Policy, now: nat)
    ensures var decision := Check(Replay(h, p), p, now);
            || decision == Verdict(h, p, now)
            || (decision == Deny(InsufficientSamples) && Verdict(h, p, now) == Allow)
  {
    CheckMeetsVerdict(h, p, now);
    SubsetSize(Unexpired(h, p, now), InWindow(h, p, now));
  }

  /** And it can differ: a run for a policy wanting two samples within 100 ms, where a later weak
      sighting prunes both, and a decision taken with a clock read before that sighting. */
  function EarlyReadingRun(): seq<Event> {
    [Observed(0, -60, Qualify), Observed(50, -60, Qualify), Observed(400, -90, Qualify)]
  }

  lemma EarlierClockReadingRefuses(p: Policy)
    requires p == Policy(-75, 2, 100, 2_500)
    ensures Check(Replay(EarlyReadingRun(), p), p, 50) == Deny(InsufficientSamples)
    ensures Verdict(EarlyReadingRun(), p, 50) == Allow
  {
    var h := EarlyReadingRun();
    assert Counted(h, p, 0) && Counted(h, p, 1);
    assert Live(h, p, 0) && Live(h, p, 1);
    assert {0, 1} <= InWindow(h, p, 50);
    SubsetSize({0, 1}, InWindow(h, p, 50));
    assert IsQualify(h[2]) && !IsStrong(h[2], p);
    assert !Survived(h, p, 0) && !Survived(h, p, 1);
    assert Unexpired(h, p, 50) == {};
    CheckMeetsVerdict(h, p, 50);
  }

  /** The minimum plays no part in which sightings count. */
  lemma {:induction false} MinimumDoesNotCount(h: seq<Event>, p: Policy, m: nat, i: nat)
    requires i < |h|
    ensures Counted(h, p.(minimumSamples := m), i) == Counted(h, p, i)
    decreases i
  {
    forall j: nat | j < i
      ensures Counted(h, p.(minimumSamples := m), j) == Counted(h, p, j)
    {
      MinimumDoesNotCount(h, p, m, j);
    }
  }

  lemma SameEvidence(h: seq<Event>, p: Policy, m: nat, now: nat)
    ensures var q := p.(minimumSamples := m);
            && LiveSet(h, q) == LiveSet(h, p)
            && InWindow(h, q, now) == InWindow(h, p, now)
            && Unexpired(h, q, now) == Unexpired(h, p, now)
  {
    forall i: nat
      ensures Live(h, p.(minimumSamples := m), i) == Live(h, p, i)
    {
      if i < |h| {
        MinimumDoesNotCount(h, p, m, i);
      }
    }
  }

  /** Some live sample is fresh. */
  ghost predicate HeardFreshly(h: seq<Event>, p: Policy, now: nat) {
    exists i :: i in LiveSet(h, p) && SaturatingSub(now, h[i].now) <= p.freshnessMs
  }

  /** No Qualify came with a clock so far ahead of `now` that it expired a sample `now` still admits. */
  ghost predicate NothingExpiredAhead(h: seq<Event>, p: Policy, now: nat) {
    forall i, k | i in InWindow(h, p, now) && i < k < |h| && IsQualify(h[k]) ::
      SaturatingSub(h[k].now, h[i].now) <= p.sampleWindowMs
  }

  ghost predicate DocumentedFor(h: seq<Event>, p: Policy, now: nat, m: nat) {
    var q := p.(minimumSamples := m);
    Check(Replay(h, q), q, now) == Verdict(h, q, now)
  }

  lemma DocumentedForMeans(h: seq<Event>, p: Policy, now: nat, m: nat)
    ensures DocumentedFor(h, p, now, m) <==>
            (HeardFreshly(h, p, now) ==> (|Unexpired(h, p, now)| < m <==> |InWindow(h, p, now)| < m))
  {
    CheckMeetsVerdict(h, p.(minimumSamples := m), now);
    SameEvidence(h, p, m, now);
    assert HeardFreshly(h, p, now) ==> LiveSet(h, p) != {};
  }

  /** Samples the reading still admits are all left unless one expired ahead, and then fewer are. */
  lemma ExpiredAheadLeavesFewer(h: seq<Event>, p: Policy, now: nat)
    ensures NothingExpiredAhead(h, p, now) ==> |Unexpired(h, p, now)| == |InWindow(h, p, now)|
    ensures !NothingExpiredAhead(h, p, now) ==> |Unexpired(h, p, now)| < |InWindow(h, p, now)|
  {
    var all, left := InWindow(h, p, now), Unexpired(h, p, now);
    if NothingExpiredAhead(h, p, now) {
      assert left == all;
    } else {
      var i, k :| i in all && i < k < |h| && IsQualify(h[k]) && SaturatingSub(h[k].now, h[i].now) > p.sampleWindowMs;
      assert i !in left;
      SubsetSize(left, all - {i});
    }
  }

  /** Exactly when the decision is the documented one whatever the configured minimum. */
  lemma DocumentedUnlessExpiredAhead(h: seq<Event>, p: Policy, now: nat)
    ensures (forall m: nat :: DocumentedFor(h, p, now, m)) <==> (HeardFreshly(h, p, now) ==> NothingExpiredAhead(h, p, now))
  {
    ExpiredAheadLeavesFewer(h, p, now);
    if HeardFreshly(h, p, now) ==> NothingExpiredAhead(h, p, now) {
      forall m: nat
        ensures DocumentedFor(h, p, now, m)
      {
        DocumentedForMeans(h, p, now, m);
      }
    } else {
      DocumentedForMeans(h, p, now, |InWindow(h, p, now)|);
    }
  }

  // ---------------------------------------------------------------------
  // Spacing
  // ---------------------------------------------------------------------

  /** `ps` are strong Qualify positions, in order, the spacing apart, with no reset since the
      first, all inside the window at `now`. */
  ghost predicate SpacedSightings(h: seq<Event>, p: Policy, now: nat, ps: seq<nat>) {
    && StrictlyIncreasing(ps)
    && (forall m | 0 <= m < |ps| ::
          && ps[m] < |h|
          && IsStrong(h[ps[m]], p)
          && SaturatingSub(now, h[ps[m]].now) <= p.sampleWindowMs)
    && (forall m | 0 < m < |ps| :: h[ps[m - 1]].now + MIN_SAMPLE_SPACING_MS <= h[ps[m]].now)
    && (ps != [] ==> NoReset(h, ps[0], |h|))
  }

  /** Every strong Qualify is counted or has a live sample less than the spacing before it. */
  lemma SightingIsCovered(h: seq<Event>, p: Policy, now: nat, i: nat) returns (c: nat)
    requires Nondecreasing(h, now)
    requires i < |h| && IsStrong(h[i], p) && NoReset(h, i, |h|)
    ensures Live(h, p, c) && h[c].now <= h[i].now < h[c].now + MIN_SAMPLE_SPACING_MS
  {
    if Counted(h, p, i) {
      c := i;
    } else {
      c :| c < i && NoReset(h, c + 1, i) && Counted(h, p, c) && h[c].now + MIN_SAMPLE_SPACING_MS > h[i].now;
      assert forall k | c + 1 <= k < |h| :: !IsReset(h[k]);
    }
  }

  /** The live samples at or before the `m`-th sighting number at least `m`, the first one aside. */
  lemma {:induction false} CoveringSamples(h: seq<Event>, p: Policy, now: nat, ps: seq<nat>, m: nat) returns (s: set<nat>)
    requires Nondecreasing(h, now) && SpacedSightings(h, p, now, ps)
    requires m < |ps|
    ensures |s| == m && s <= InWindow(h, p, now)
    ensures forall i | i in s :: h[i].now <= h[ps[m]].now
    decreases m
  {
    if m == 0 {
      s := {};
    } else {
      var before := CoveringSamples(h, p, now, ps, m - 1);
      assert NoReset(h, ps[m], |h|) by { assert ps[0] <= ps[m]; }
      var c := SightingIsCovered(h, p, now, ps[m]);
      assert ps[0] <= ps[m - 1];
      assert h[ps[0]].now <= h[ps[m - 1]].now;
      assert c !in before;
      s := before + {c};
    }
  }

  /** The spacing filter costs at most one sample: k spaced sightings leave k-1 counted. */
  lemma SpacingCostsAtMostOne(h: seq<Event>, p: Policy, now: nat, ps: seq<nat>)
    requires Nondecreasing(h, now) && SpacedSightings(h, p, now, ps)
    ensures |Retain(Replay(h, p).samples, now, p.sampleWindowMs)| >= |ps| - 1
  {
    if ps != [] {
      var s := CoveringSamples(h, p, now, ps, |ps| - 1);
      assert Unexpired(h, p, now) == InWindow(h, p, now);
      SubsetSize(s, Unexpired(h, p, now));
      StoredIsUnexpired(h, p, now);
    }
  }

  /** So one sighting more than the minimum, the last of them fresh by the spacing, always authorises. */
  lemma EnoughSightingsAllow(h: seq<Event>, p: Policy, now: nat, ps: seq<nat>)
    requires Nondecreasing(h, now) && SpacedSightings(h, p, now, ps)
    requires |ps| > p.minimumSamples
    requires SaturatingSub(now, h[ps[|ps| - 1]].now) + MIN_SAMPLE_SPACING_MS <= p.freshnessMs
    ensures Check(Replay(h, p), p, now) == Allow
  {
    SpacingCostsAtMostOne(h, p, now, ps);
    var last := ps[|ps| - 1];
    assert NoReset(h, last, |h|) by { assert ps[0] <= last; }
    var c := SightingIsCovered(h, p, now, last);
    ReplayNewest(h, p);
    var newest: nat :| IsNewestAt(h, p, newest) && Replay(h, p).lastQualifying == Some(h[newest].now);
    NewestIsLatest(h, p, newest);
  }

  // ---------------------------------------------------------------------
  // Repeats
  // ---------------------------------------------------------------------

  /** The revocation a decision from `now` on can still report. */
  function RecentRevocation(s: Log, p: Policy, now: nat): Option<nat> {
    if s.lastRevocation.Some? && SaturatingSub(now, s.lastRevocation.value) <= p.freshnessMs then s.lastRevocation else None
  }

  /** Two logs no decision or observation from `now` on can tell apart. */
  ghost predicate Indistinguishable(a: Log, b: Log, p: Policy, now: nat) {
    && a.lastQualifying == b.lastQualifying
    && RecentRevocation(a, p, now) == RecentRevocation(b, p, now)
    && Retain(a.samples, now, p.sampleWindowMs) == Retain(b.samples, now, p.sampleWindowMs)
  }

  /** Pruning early and pruning again later is pruning later. */
  lemma {:induction false} RetainTwice(samples: seq<nat>, early: nat, late: nat, window: nat)
    requires early <= late
    ensures Retain(Retain(samples, early, window), late, window) == Retain(samples, late, window)
  {
    if samples != [] {
      var front := samples[..|samples| - 1];
      RetainTwice(front, early, late, window);
      var kept := Retain(front, early, window);
      assert (kept + [samples[|samples| - 1]])[..|kept|] == kept;
    }
  }

  lemma StaysIndistinguishable(a: Log, b: Log, p: Policy, now: nat, e: Event)
    requires Indistinguishable(a, b, p, now)
    requires e.Observed? ==> now <= e.now
    ensures Indistinguishable(Apply(a, e, p), Apply(b, e, p), p, if e.Observed? then e.now else now)
  {
    if e.Observed? {
      RetainTwice(a.samples, now, e.now, p.sampleWindowMs);
      RetainTwice(b.samples, now, e.now, p.sampleWindowMs);
    }
  }

  ghost function ReplayFrom(s: Log, h: seq<Event>, p: Policy): Log
    decreases |h|
  {
    if h == [] then s else ReplayFrom(Apply(s, h[0], p), h[1..], p)
  }

  lemma {:induction false} ReplayConcat(a: seq<Event>, b: seq<Event>, p: Policy)
    ensures Replay(a + b, p) == ReplayFrom(Replay(a, p), b, p)
    decreases |b|
  {
    if b == [] {
      assert a + b == a;
    } else {
      var a' := a + [b[0]];
      assert a + b == a' + b[1..] && a'[..|a|] == a;
      ReplayConcat(a', b[1..], p);
    }
  }

  lemma {:induction false} IndistinguishableForever(a: Log, b: Log, p: Policy, now: nat, h: seq<Event>, later: nat)
    requires Indistinguishable(a, b, p, now)
    requires Nondecreasing(h, later) && now <= later
    requires forall i | 0 <= i < |h| && h[i].Observed? :: now <= h[i].now
    ensures Check(ReplayFrom(a, h, p), p, later) == Check(ReplayFrom(b, h, p), p, later)
    decreases |h|
  {
    if h == [] {
      RetainTwice(a.samples, now, later, p.sampleWindowMs);
      RetainTwice(b.samples, now, later, p.sampleWindowMs);
    } else {
      StaysIndistinguishable(a, b, p, now, h[0]);
      IndistinguishableForever(Apply(a, h[0], p), Apply(b, h[0], p), p,
                               if h[0].Observed? then h[0].now else now, h[1..], later);
    }
  }

  /** Leaving the observation `e` out makes no difference to this decision. */
  ghost predicate SameWithout(before: seq<Event>, e: Event, after: seq<Event>, p: Policy, later: nat) {
    Check(Replay(before + [e] + after, p), p, later) == Check(Replay(before + after, p), p, later)
  }

  lemma IndistinguishableAfterwards(before: seq<Event>, e: Event, after: seq<Event>, p: Policy, later: nat)
    requires e.Observed? && Nondecreasing(before + [e] + after, later)
    requires Indistinguishable(Replay(before, p), Replay(before + [e], p), p, e.now)
    ensures SameWithout(before, e, after, p, later)
  {
    var whole := before + [e] + after;
    assert whole[|before|] == e;
    assert forall i | 0 <= i < |after| :: after[i] == whole[|before| + 1 + i];
    IndistinguishableForever(Replay(before, p), Replay(before + [e], p), p, e.now, after, later);
    ReplayConcat(before, after, p);
    ReplayConcat(before + [e], after, p);
  }

  /** A revocation and a qualifying time are never held together, nor samples without one. */
  lemma {:induction false} NoTimeNoSamples(h: seq<Event>, p: Policy)
    ensures Replay(h, p).lastRevocation.Some? ==> Replay(h, p).lastQualifying.None?
    ensures Replay(h, p).lastQualifying.None? ==> Replay(h, p).samples == []
  {
    if h != [] {
      NoTimeNoSamples(h[..|h| - 1], p);
    }
  }

  /** A Qualify that adds no sample, being weak or a repeat within the spacing, is indistinguishable from
      none unless it takes back a lock assertion that would still be reported. */
  lemma UncountedQualifyStands(a: Log, e: Event, p: Policy)
    requires IsQualify(e) && !AddsSample(a, e, p)
    requires a.lastRevocation.Some? ==> a.lastQualifying.None?
    requires Check(a, p, e.now) != Deny(DeviceLocked)
    ensures Indistinguishable(a, Apply(a, e, p), p, e.now)
  {
    RetainTwice(a.samples, e.now, e.now, p.sampleWindowMs);
  }

  /** Dropping a Qualify that does not count changes no later decision of any continuation, exactly when
      the device was not being reported as locked at the time. */
  lemma UncountedQualifyChangesNothing(before: seq<Event>, e: Event, p: Policy)
    requires IsQualify(e) && !Counted(before + [e], p, |before|)
    requires Nondecreasing(before + [e], e.now)
    ensures (forall after, later | Nondecreasing(before + [e] + after, later) :: SameWithout(before, e, after, p, later))
            <==> Check(Replay(before, p), p, e.now) != Deny(DeviceLocked)
  {
    AddsWhatCounts(before, e, p);
    ReplayAppend(before, e, p);
    NoTimeNoSamples(before, p);
    if Check(Replay(before, p), p, e.now) != Deny(DeviceLocked) {
      UncountedQualifyStands(Replay(before, p), e, p);
      forall after, later | Nondecreasing(before + [e] + after, later)
        ensures SameWithout(before, e, after, p, later)
      {
        IndistinguishableAfterwards(before, e, after, p, later);
      }
    } else {
      assert before + [e] + [] == before + [e] && before + [] == before;
      assert !SameWithout(before, e, [], p, e.now);
    }
  }

  // ---------------------------------------------------------------------
  // The sample bound
  // ---------------------------------------------------------------------

  /** The most samples a window can hold at the minimum spacing, as config validation computes it. */
  function MaximumSamples(p: Policy): nat {
    p.sampleWindowMs / MIN_SAMPLE_SPACING_MS + 1
  }

  ghost predicate Spaced(samples: seq<nat>) {
    forall i, j | 0 <= i < j < |samples| :: samples[i] + MIN_SAMPLE_SPACING_MS * (j - i) <= samples[j]
  }

  ghost predicate WithinOneWindow(s: Log, p: Policy) {
    s.samples != [] ==>
      && s.lastQualifying == Some(s.samples[|s.samples| - 1])
      && s.lastQualifying.value - s.samples[0] <= p.sampleWindowMs
  }

  /** When the newest sample has expired, so have all before it. */
  lemma {:induction false} NothingOlderIsKept(samples: seq<nat>, now: nat, window: nat)
    requires samples != [] && SaturatingSub(now, samples[|samples| - 1]) > window
    requires Spaced(samples)
    ensures Retain(samples, now, window) == []
  {
    if |samples| > 1 {
      var front := samples[..|samples| - 1];
      assert samples[|samples| - 2] <= samples[|samples| - 1];
      NothingOlderIsKept(front, now, window);
    }
  }

  lemma {:induction false} RetainedIsRecent(samples: seq<nat>, now: nat, window: nat)
    ensures forall x | x in Retain(samples, now, window) :: SaturatingSub(now, x) <= window
  {
    if samples != [] {
      RetainedIsRecent(samples[..|samples| - 1], now, window);
    }
  }

  lemma PrefixSpaced(samples: seq<nat>)
    requires Spaced(samples) && samples != []
    ensures Spaced(samples[..|samples| - 1])
  {
  }

  lemma SuffixGrows(samples: seq<nat>, d: nat)
    requires d < |samples|
    ensures samples[..|samples| - 1][d..] + [samples[|samples| - 1]] == samples[d..]
  {
  }

  /** Pruning a spaced list keeps a suffix of it. */
  lemma {:induction false} RetainIsSuffix(samples: seq<nat>, now: nat, window: nat) returns (d: nat)
    requires Spaced(samples)
    ensures d <= |samples| && Retain(samples, now, window) == samples[d..]
  {
    if samples == [] {
      d := 0;
    } else if SaturatingSub(now, samples[|samples| - 1]) > window {
      NothingOlderIsKept(samples, now, window);
      d := |samples|;
    } else {
      PrefixSpaced(samples);
      d := RetainIsSuffix(samples[..|samples| - 1], now, window);
      SuffixGrows(samples, d);
    }
  }

  /** In every run, under any clock, the stored samples are at least the spacing apart,
      fit one window, and never outnumber the configured bound. */
  lemma StoredSamplesAreBounded(h: seq<Event>, p: Policy)
    ensures var samples := Replay(h, p).samples;
            && (forall i | 0 < i < |samples| :: samples[i - 1] + MIN_SAMPLE_SPACING_MS <= samples[i])
            && (samples != [] ==> samples[|samples| - 1] - samples[0] <= p.sampleWindowMs)
            && |samples| <= MaximumSamples(p)
  {
    StoredSamplesAreSpaced(h, p);
    var samples := Replay(h, p).samples;
    if samples != [] {
      assert samples[0] + 50 * (|samples| - 1) <= samples[|samples| - 1];
    }
  }

  lemma {:induction false} StoredSamplesAreSpaced(h: seq<Event>, p: Policy)
    ensures Spaced(Replay(h, p).samples) && WithinOneWindow(Replay(h, p), p)
  {
    if h != [] {
      StoredSamplesAreSpaced(h[..|h| - 1], p);
      if IsQualify(h[|h| - 1]) {
        SpacedAppend(Replay(h[..|h| - 1], p), h[|h| - 1], p);
      }
    }
  }

  lemma SpacedPush(samples: seq<nat>, now: nat)
    requires Spaced(samples)
    requires samples != [] ==> samples[|samples| - 1] + MIN_SAMPLE_SPACING_MS <= now
    ensures Spaced(samples + [now])
  {
    var n, t := |samples|, samples + [now];
    forall i, j | 0 <= i < j <= n
      ensures t[i] + MIN_SAMPLE_SPACING_MS * (j - i) <= t[j]
    {
      if j == n && i < n - 1 {
        assert t[i] + MIN_SAMPLE_SPACING_MS * (n - 1 - i) <= t[n - 1];
      }
    }
  }

  lemma SuffixSpaced(samples: seq<nat>, d: nat)
    requires Spaced(samples) && d <= |samples|
    ensures Spaced(samples[d..])
    ensures d < |samples| ==> samples[0] <= samples[d..][0]
  {
    assert 0 < d < |samples| ==> samples[0] + MIN_SAMPLE_SPACING_MS * (d - 0) <= samples[d];
  }

  lemma PrunedSpaced(a: Log, now: nat, p: Policy)
    requires Spaced(a.samples) && WithinOneWindow(a, p)
    ensures var r := Retain(a.samples, now, p.sampleWindowMs);
            && Spaced(r)
            && (r != [] ==> a.lastQualifying == Some(r[|r| - 1]) && r[|r| - 1] - r[0] <= p.sampleWindowMs
                            && SaturatingSub(now, r[0]) <= p.sampleWindowMs)
  {
    var d := RetainIsSuffix(a.samples, now, p.sampleWindowMs);
    RetainedIsRecent(a.samples, now, p.sampleWindowMs);
    var r := Retain(a.samples, now, p.sampleWindowMs);
    SuffixSpaced(a.samples, d);
    if r != [] {
      assert r[0] in r;
    }
  }

  lemma SpacedAppend(a: Log, e: Event, p: Policy)
    requires IsQualify(e) && Spaced(a.samples) && WithinOneWindow(a, p)
    ensures var s := Apply(a, e, p); Spaced(s.samples) && WithinOneWindow(s, p)
  {
    var kept := Retain(a.samples, e.now, p.sampleWindowMs);
    PrunedSpaced(a, e.now, p);
    if Apply(a, e, p).samples != kept {
      SpacedPush(kept, e.now);
    }
  }

  /** Advertisements exactly the spacing apart, at exactly the threshold. */
  function SteadyRun(p: Policy, k: nat): seq<Event> {
    seq(k, i requires 0 <= i < k => Observed(MIN_SAMPLE_SPACING_MS * i, p.thresholdDbm, Qualify))
  }

  function SteadyTimes(k: nat): seq<nat> {
    seq(k, i requires 0 <= i < k => MIN_SAMPLE_SPACING_MS * i)
  }

  lemma {:induction false} RetainAll(samples: seq<nat>, now: nat, window: nat)
    requires forall x | x in samples :: SaturatingSub(now, x) <= window
    ensures Retain(samples, now, window) == samples
  {
    if samples != [] {
      RetainAll(samples[..|samples| - 1], now, window);
    }
  }

  lemma SteadyRunGrows(p: Policy, k: nat)
    requires 0 < k
    ensures SteadyRun(p, k) == SteadyRun(p, k - 1) + [Observed(MIN_SAMPLE_SPACING_MS * (k - 1), p.thresholdDbm, Qualify)]
    ensures SteadyTimes(k) == SteadyTimes(k - 1) + [MIN_SAMPLE_SPACING_MS * (k - 1)]
  {
  }

  /** What the steady run has left in the log after `k` advertisements. */
  function SteadyLog(p: Policy, k: nat): Log
    requires 0 < k
  {
    Log(SteadyTimes(k), Some(MIN_SAMPLE_SPACING_MS * (k - 1)), None, Some(p.thresholdDbm))
  }

  lemma SteadyStep(p: Policy, k: nat)
    requires 1 < k <= MaximumSamples(p)
    ensures Apply(SteadyLog(p, k - 1), Observed(MIN_SAMPLE_SPACING_MS * (k - 1), p.thresholdDbm, Qualify), p) == SteadyLog(p, k)
  {
    RetainAll(SteadyTimes(k - 1), MIN_SAMPLE_SPACING_MS * (k - 1), p.sampleWindowMs);
    SteadyRunGrows(p, k);
  }

  lemma {:induction false} SteadyRunCountsEverySample(p: Policy, k: nat)
    requires 0 < k <= MaximumSamples(p)
    ensures Replay(SteadyRun(p, k), p) == SteadyLog(p, k)
  {
    SteadyRunGrows(p, k);
    ReplayAppend(SteadyRun(p, k - 1), Observed(MIN_SAMPLE_SPACING_MS * (k - 1), p.thresholdDbm, Qualify), p);
    if k > 1 {
      SteadyRunCountsEverySample(p, k - 1);
      SteadyStep(p, k);
    } else {
      assert SteadyRun(p, 0) == [];
    }
  }

  /** The policy can be satisfied by some run. */
  ghost predicate Feasible(p: Policy) {
    exists h, now :: Check(Replay(h, p), p, now) == Allow
  }

  /** Main result: config validation's bound is exactly feasibility. */
  lemma BoundIsFeasibility(p: Policy)
    ensures Feasible(p) <==> p.minimumSamples <= MaximumSamples(p)
  {
    if p.minimumSamples <= MaximumSamples(p) {
      var k := if p.minimumSamples == 0 then 1 else p.minimumSamples;
      var now := MIN_SAMPLE_SPACING_MS * (k - 1);
      SteadyRunCountsEverySample(p, k);
      RetainAll(SteadyTimes(k), now, p.sampleWindowMs);
      assert Check(Replay(SteadyRun(p, k), p), p, now) == Allow;
    }
    if h, now :| Check(Replay(h, p), p, now) == Allow {
      StoredSamplesAreBounded(h, p);
    }
  }

  // ---------------------------------------------------------------------
  // Decay
  // ---------------------------------------------------------------------

  lemma {:induction false} RetainShrinks(samples: seq<nat>, early: nat, late: nat, window: nat)
    requires early <= late
    ensures |Retain(samples, late, window)| <= |Retain(samples, early, window)|
  {
    if samples != [] {
      RetainShrinks(samples[..|samples| - 1], early, late, window);
    }
  }

  /** With nothing observed, time only moves a device further from authorising. */
  lemma DecisionsDecay(s: Log, p: Policy, early: nat, late: nat)
    requires early <= late
    ensures Check(s, p, early).Rank() <= Check(s, p, late).Rank()
  {
    RetainShrinks(s.samples, early, late, p.sampleWindowMs);
  }

  /** Once the newest counted sample is older than the freshness bound the device is stale, not allowed. */
  lemma AllowExpires(h: seq<Event>, p: Policy, now: nat)
    requires Check(Replay(h, p), p, now) == Allow
    ensures exists i: nat :: IsNewestAt(h, p, i) && SaturatingSub(now, h[i].now) <= p.freshnessMs
    ensures forall i: nat, later: nat | IsNewestAt(h, p, i) && h[i].now + p.freshnessMs < later ::
              Check(Replay(h, p), p, later) == Deny(Stale)
  {
    ReplayNewest(h, p);
    var last := Replay(h, p).lastQualifying;
    var i: nat :| IsNewestAt(h, p, i) && h[i].now == last.value;
    forall j: nat, later: nat | IsNewestAt(h, p, j) && h[j].now + p.freshnessMs < later
      ensures Check(Replay(h, p), p, later) == Deny(Stale)
    {
      assert j == i;
    }
  }
}
