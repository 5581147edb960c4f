/**
 Per-device presence evidence: what a history of observations means, how the
 daemon's small incremental log represents it, and why the two agree.
 */
module Evidence {
  import opened Prelude

  const MIN_SAMPLE_SPACING_MS: nat := 50
  const MAX_SAMPLE_WINDOW_MS: nat := 30_000
  const MAX_FRESHNESS_MS: nat := 10_000
  const MIN_THRESHOLD_DBM: int := -127
  const MAX_THRESHOLD_DBM: int := 20

  datatype Policy = Policy(thresholdDbm: int, minimumSamples: nat, sampleWindowMs: nat, freshnessMs: nat)

  /** The refusal tokens of the control protocol. */
  datatype Reason = Protocol | NoDevice | Stale | InsufficientSamples | DeviceLocked | MultiDeviceAuth

  datatype Decision = Allow | Deny(reason: Reason)
  {
    /** How close an outcome is to authorising, lowest first. */
    function Rank(): nat {
      match this
      case Allow => 0
      case Deny(InsufficientSamples) => 1
      case Deny(Stale) => 2
      case Deny(DeviceLocked) => 3
      case Deny(_) => 4
    }
  }

  datatype Observation = Qualify | Revoke | Ignore

  /** One thing that happened to a device's evidence. */
  datatype Event =
    | Observed(now: nat, rssi: int, observation: Observation)
    | Invalidated

  predicate IsReset(e: Event) {
    e.Invalidated? || e.observation.Revoke?
  }

  predicate IsQualify(e: Event) {
    e.Observed? && e.observation.Qualify?
  }

  predicate IsStrong(e: Event, p: Policy) {
    IsQualify(e) && e.rssi >= p.thresholdDbm
  }

  // ---------------------------------------------------------------------
  // What a history means, with nothing pruned
  // ---------------------------------------------------------------------

  ghost predicate NoReset(h: seq<Event>, lo: nat, hi: nat)
    requires hi <= |h|
  {
    forall k | lo <= k < hi :: !IsReset(h[k])
  }

  /** A strong Qualify counts when it is at least the spacing after every
      sample counted before it since the last reset. */
  ghost predicate Counted(h: seq<Event>, p: Policy, i: nat): (r: bool)
    requires i < |h|
    ensures r ==> IsStrong(h[i], p)
    decreases i
  {
    && IsStrong(h[i], p)
    && forall j: nat | j < i && NoReset(h, j + 1, i) && Counted(h, p, j) ::
         h[j].now + MIN_SAMPLE_SPACING_MS <= h[i].now
  }

  /** Counted, and not revoked or invalidated since. */
  ghost predicate Live(h: seq<Event>, p: Policy, i: nat): (r: bool)
    ensures r ==> i < |h| && IsStrong(h[i], p)
  {
    i < |h| && Counted(h, p, i) && NoReset(h, i + 1, |h|)
  }

  /** No Qualify after `i` already found the sample outside the window. */
  ghost predicate Survived(h: seq<Event>, p: Policy, i: nat)
    requires i < |h| && h[i].Observed?
  {
    forall k | i < k < |h| && IsQualify(h[k]) :: SaturatingSub(h[k].now, h[i].now) <= p.sampleWindowMs
  }

  /** The last event that is not an Ignore. */
  function LastSpoken(h: seq<Event>): Option<Event> {
    if h == [] then None
    else
      var e := h[|h| - 1];
      if e.Observed? && e.observation.Ignore? then LastSpoken(h[..|h| - 1]) else Some(e)
  }

  /** The device's own last word was a lock assertion, heard recently. */
  predicate LockedRecently(h: seq<Event>, p: Policy, now: nat) {
    var last := LastSpoken(h);
    && last.Some?
    && last.value.Observed?
    && last.value.observation.Revoke?
    && SaturatingSub(now, last.value.now) <= p.freshnessMs
  }

  ghost function LiveSet(h: seq<Event>, p: Policy): (r: set<nat>)
    ensures forall i :: i in r <==> Live(h, p, i)
  {
    set i: nat | i < |h| && Live(h, p, i)
  }

  /** Live samples inside the window when the decision is made. */
  ghost function InWindow(h: seq<Event>, p: Policy, now: nat): set<nat> {
    set i | i in LiveSet(h, p) && SaturatingSub(now, h[i].now) <= p.sampleWindowMs
  }

  /** Live samples that neither the decision nor any Qualify since found outside the window. */
  ghost function Unexpired(h: seq<Event>, p: Policy, now: nat): set<nat> {
    set i | i in InWindow(h, p, now) && Survived(h, p, i)
  }

  /** The decision a history deserves when `evidence` are the samples that count towards the minimum. */
  ghost function VerdictOn(h: seq<Event>, p: Policy, now: nat, evidence: set<nat>): Decision {
    if LiveSet(h, p) == {} then
      if LockedRecently(h, p, now) then Deny(DeviceLocked) else Deny(NoDevice)
    else if forall i | i in LiveSet(h, p) :: SaturatingSub(now, h[i].now) > p.freshnessMs then
      Deny(Stale)
    else if |evidence| < p.minimumSamples then
      Deny(InsufficientSamples)
    else
      Allow
  }

  /** The policy as documented: the window is applied when the decision is made. */
  ghost function Verdict(h: seq<Event>, p: Policy, now: nat): Decision {
    VerdictOn(h, p, now, InWindow(h, p, now))
  }

  /** The policy for a clock that may run backwards: a sample once found expired stays expired. */
  ghost function AnyClockVerdict(h: seq<Event>, p: Policy, now: nat): Decision {
    VerdictOn(h, p, now, Unexpired(h, p, now))
  }

  // ---------------------------------------------------------------------
  // The incremental log
  // ---------------------------------------------------------------------

  /** The fields of the source's `Eligibility`. */
  datatype Log = Log(samples: seq<nat>, lastQualifying: Option<nat>, lastRevocation: Option<nat>, lastRssi: Option<int>)

  const EMPTY := Log([], None, None, None)

  /** The samples at most `window` old at `now`, in order. */
  function Retain(samples: seq<nat>, now: nat, window: nat): (r: seq<nat>)
    ensures |r| <= |samples|
  {
    if samples == [] then []
    else
      var front := Retain(samples[..|samples| - 1], now, window);
      var last := samples[|samples| - 1];
      if SaturatingSub(now, last) <= window then front + [last] else front
  }

  function Observe(s: Log, now: nat, rssi: int, observation: Observation, p: Policy): Log {
    match observation
    case Revoke => Log([], None, Some(now), Some(rssi))
    case Ignore => s.(lastRssi := Some(rssi))
    case Qualify =>
      var pruned := Retain(s.samples, now, p.sampleWindowMs);
      var repeated := s.lastQualifying.Some? && SaturatingSub(now, s.lastQualifying.value) < MIN_SAMPLE_SPACING_MS;
      if rssi < p.thresholdDbm || repeated then
        Log(pruned, s.lastQualifying, None, Some(rssi))
      else
        Log(pruned + [now], Some(now), None, Some(rssi))
  }

  function Apply(s: Log, e: Event, p: Policy): Log {
    match e
    case Observed(now, rssi, observation) => Observe(s, now, rssi, observation, p)
    case Invalidated => EMPTY
  }

  function Replay(h: seq<Event>, p: Policy): Log {
    if h == [] then EMPTY else Apply(Replay(h[..|h| - 1], p), h[|h| - 1], p)
  }

  function Check(s: Log, p: Policy, now: nat): Decision {
    if s.lastQualifying.None? then
      if s.lastRevocation.Some? && SaturatingSub(now, s.lastRevocation.value) <= p.freshnessMs then
        Deny(DeviceLocked)
      else
        Deny(NoDevice)
    else if SaturatingSub(now, s.lastQualifying.value) > p.freshnessMs then
      Deny(Stale)
    else if |Retain(s.samples, now, p.sampleWindowMs)| < p.minimumSamples then
      Deny(InsufficientSamples)
    else
      Allow
  }

  // ---------------------------------------------------------------------
  // Refinement
  // ---------------------------------------------------------------------

  /** Later events do not change whether an earlier one counted. */
  lemma {:induction false} CountedInPrefix(h: seq<Event>, e: Event, p: Policy, i: nat)
    requires i < |h|
    ensures Counted(h + [e], p, i) == Counted(h, p, i)
    decreases i
  {
    forall j: nat | j < i
      ensures NoReset(h + [e], j + 1, i) == NoReset(h, j + 1, i)
      ensures Counted(h + [e], p, j) == Counted(h, p, j)
    {
      assert forall k | j + 1 <= k < i :: (h + [e])[k] == h[k];
      CountedInPrefix(h, e, p, j);
    }
  }

  lemma LiveAfter(h: seq<Event>, e: Event, p: Policy, i: nat)
    requires i < |h|
    ensures Live(h + [e], p, i) == (Live(h, p, i) && !IsReset(e))
  {
    CountedInPrefix(h, e, p, i);
    assert (h + [e])[|h|] == e;
    if Live(h + [e], p, i) {
      assert forall k | i + 1 <= k < |h| :: (h + [e])[k] == h[k];
    }
  }

  /** Counted samples are at least the spacing apart, whatever the clock does. */
  lemma LiveSpacing(h: seq<Event>, p: Policy, i: nat, j: nat)
    requires Live(h, p, i) && Live(h, p, j) && i < j
    ensures h[i].now + MIN_SAMPLE_SPACING_MS <= h[j].now
  {
    assert NoReset(h, i + 1, j);
  }

  /** The positions whose samples the log still stores. */
  ghost function Kept(h: seq<Event>, p: Policy): (r: seq<nat>)
    ensures forall i | i in r :: i < |h| && h[i].Observed?
  {
    if h == [] then []
    else
      var front := h[..|h| - 1];
      var e := h[|h| - 1];
      if IsReset(e) then []
      else if !IsQualify(e) then Kept(front, p)
      else RetainKept(h, p, Kept(front, p), e.now) + (if Counted(h, p, |front|) then [|front|] else [])
  }

  ghost function RetainKept(h: seq<Event>, p: Policy, ps: seq<nat>, now: nat): (r: seq<nat>)
    requires forall i | i in ps :: i < |h| && h[i].Observed?
    ensures forall i :: i in r <==> i in ps && SaturatingSub(now, h[i].now) <= p.sampleWindowMs
  {
    if ps == [] then []
    else
      var front := RetainKept(h, p, ps[..|ps| - 1], now);
      var last := ps[|ps| - 1];
      assert last in ps && forall i :: i in ps <==> i in ps[..|ps| - 1] || i == last by {
        assert ps == ps[..|ps| - 1] + [last];
      }
      if SaturatingSub(now, h[last].now) <= p.sampleWindowMs then front + [last] else front
  }

  lemma {:induction false} RetainKeptIncreasing(h: seq<Event>, p: Policy, ps: seq<nat>, now: nat)
    requires forall i | i in ps :: i < |h| && h[i].Observed?
    requires StrictlyIncreasing(ps)
    ensures StrictlyIncreasing(RetainKept(h, p, ps, now))
  {
    if ps != [] {
      var front := ps[..|ps| - 1];
      RetainKeptIncreasing(h, p, front, now);
      var kept := RetainKept(h, p, front, now);
      assert forall i | i in kept :: i in front;
      if ps[|ps| - 1] !in kept {
        AppendIncreasing(kept, ps[|ps| - 1]);
      }
    }
  }

  ghost function Times(h: seq<Event>, ps: seq<nat>): seq<nat>
    requires forall i | i in ps :: i < |h| && h[i].Observed?
  {
    seq(|ps|, k requires 0 <= k < |ps| => assert ps[k] in ps; h[ps[k]].now)
  }

  /** Filtering positions and filtering their times is the same thing. */
  lemma {:induction false} RetainTimes(h: seq<Event>, p: Policy, ps: seq<nat>, now: nat)
    requires forall i | i in ps :: i < |h| && h[i].Observed?
    ensures Times(h, RetainKept(h, p, ps, now)) == Retain(Times(h, ps), now, p.sampleWindowMs)
  {
    if ps != [] {
      var front := ps[..|ps| - 1];
      RetainTimes(h, p, front, now);
      assert Times(h, ps)[..|ps| - 1] == Times(h, front);
    }
  }

  lemma SurvivorsAfter(h: seq<Event>, e: Event, p: Policy, i: nat)
    requires i < |h|
    ensures (Live(h + [e], p, i) && Survived(h + [e], p, i)) <==>
            (&& Live(h, p, i) && Survived(h, p, i)
             && !IsReset(e)
             && (IsQualify(e) ==> SaturatingSub(e.now, h[i].now) <= p.sampleWindowMs))
  {
    LiveAfter(h, e, p, i);
    var h' := h + [e];
    assert h'[|h|] == e;
    assert forall k | i <= k < |h| :: h'[k] == h[k];
  }

  lemma {:induction false} KeptIncreasing(h: seq<Event>, p: Policy)
    ensures StrictlyIncreasing(Kept(h, p))
    ensures forall i | i in Kept(h, p) :: i < |h|
  {
    if h != [] {
      var front, e := h[..|h| - 1], h[|h| - 1];
      KeptIncreasing(front, p);
      if IsQualify(e) {
        var kept := Kept(front, p);
        RetainKeptIncreasing(h, p, kept, e.now);
        assert forall i | i in RetainKept(h, p, kept, e.now) :: i in kept && i < |front|;
        AppendIncreasing(RetainKept(h, p, kept, e.now), |front|);
      }
    }
  }

  /** `Kept` enumerates exactly the live samples that survived every pruning. */
  lemma {:induction false} KeptIsSurvivors(h: seq<Event>, p: Policy, i: nat)
    requires i < |h|
    ensures i in Kept(h, p) <==> Live(h, p, i) && Survived(h, p, i)
  {
    var front, e := h[..|h| - 1], h[|h| - 1];
    assert h == front + [e];
    if i < |front| {
      KeptIsSurvivors(front, p, i);
      SurvivorsAfter(front, e, p, i);
    } else {
      assert i !in Kept(front, p);
    }
  }

  /** The time of the latest live sample. */
  ghost predicate IsNewest(h: seq<Event>, p: Policy, newest: Option<nat>) {
    match newest
    case None => forall i: nat :: !Live(h, p, i)
    case Some(t) => exists i: nat :: IsNewestAt(h, p, i) && h[i].now == t
  }

  ghost predicate IsNewestAt(h: seq<Event>, p: Policy, i: nat): (r: bool)
    ensures r ==> i < |h| && h[i].Observed?
  {
    Live(h, p, i) && forall j: nat | Live(h, p, j) :: j <= i
  }

  lemma NewestIsLatest(h: seq<Event>, p: Policy, i: nat)
    requires IsNewestAt(h, p, i)
    ensures forall j: nat | Live(h, p, j) :: h[j].now <= h[i].now
  {
    forall j: nat | Live(h, p, j)
      ensures h[j].now <= h[i].now
    {
      if j < i {
        LiveSpacing(h, p, j, i);
      }
    }
  }

  /** A new strong Qualify counts exactly when the newest live sample is the spacing behind it. */
  lemma CountedAgainstNewest(h: seq<Event>, e: Event, p: Policy, newest: Option<nat>)
    requires IsStrong(e, p) && IsNewest(h, p, newest)
    ensures Counted(h + [e], p, |h|) <==> newest.None? || newest.value + MIN_SAMPLE_SPACING_MS <= e.now
  {
    var h' := h + [e];
    forall j: nat | j < |h|
      ensures (NoReset(h', j + 1, |h|) && Counted(h', p, j)) <==> Live(h, p, j)
    {
      CountedInPrefix(h, e, p, j);
      assert forall k | j + 1 <= k < |h| :: h'[k] == h[k];
    }
    if newest.Some? {
      var i: nat :| IsNewestAt(h, p, i) && h[i].now == newest.value;
      NewestIsLatest(h, p, i);
      assert h'[i] == h[i] && NoReset(h', i + 1, |h|) && Counted(h', p, i);
    }
  }

  lemma {:induction false} ReplayNewest(h: seq<Event>, p: Policy)
    ensures IsNewest(h, p, Replay(h, p).lastQualifying)
  {
    if h != [] {
      var front, e := h[..|h| - 1], h[|h| - 1];
      assert h == front + [e];
      ReplayNewest(front, p);
      var before, after := Replay(front, p).lastQualifying, Replay(h, p).lastQualifying;
      forall i: nat | i < |front|
        ensures Live(h, p, i) == (Live(front, p, i) && !IsReset(e))
      {
        LiveAfter(front, e, p, i);
      }
      assert Live(h, p, |front|) == Counted(h, p, |front|);
      if IsStrong(e, p) {
        CountedAgainstNewest(front, e, p, before);
        if Counted(h, p, |front|) {
          assert IsNewestAt(h, p, |front|);
        }
      }
      if after == before && !IsReset(e) && before.Some? {
        var i: nat :| IsNewestAt(front, p, i) && front[i].now == before.value;
        assert IsNewestAt(h, p, i) && h[i].now == before.value;
      }
    }
  }

  lemma {:induction false} ReplaySpoken(h: seq<Event>, p: Policy)
    ensures var last := LastSpoken(h);
            Replay(h, p).lastRevocation ==
            if last.Some? && last.value.Observed? && last.value.observation.Revoke? then Some(last.value.now) else None
  {
    if h != [] {
      ReplaySpoken(h[..|h| - 1], p);
    }
  }

  /** The RSSI kept is that of the last thing observed, whatever it said and however weak it was; a lost
      scan forgets it. */
  lemma KeepsLastRssi(h: seq<Event>, p: Policy)
    ensures Replay(h, p).lastRssi ==
            if h != [] && h[|h| - 1].Observed? then Some(h[|h| - 1].rssi) else None
  {
  }

  lemma {:induction false} ReplaySamples(h: seq<Event>, p: Policy)
    ensures forall i | i in Kept(h, p) :: i < |h| && h[i].Observed?
    ensures Replay(h, p).samples == Times(h, Kept(h, p))
  {
    if h != [] {
      var front, e := h[..|h| - 1], h[|h| - 1];
      ReplaySamples(front, p);
      assert Times(h, Kept(front, p)) == Times(front, Kept(front, p));
      if IsQualify(e) {
        QualifySamples(front, e, p);
        assert h == front + [e];
      }
    }
  }

  /** The log takes the observation for a new sample. */
  predicate AddsSample(s: Log, e: Event, p: Policy) {
    && IsStrong(e, p)
    && (s.lastQualifying.Some? ==> SaturatingSub(e.now, s.lastQualifying.value) >= MIN_SAMPLE_SPACING_MS)
  }

  /** It does so exactly when the sighting counts in the whole history. */
  lemma AddsWhatCounts(front: seq<Event>, e: Event, p: Policy)
    ensures Counted(front + [e], p, |front|) <==> AddsSample(Replay(front, p), e, p)
  {
    if IsStrong(e, p) {
      ReplayNewest(front, p);
      CountedAgainstNewest(front, e, p, Replay(front, p).lastQualifying);
    }
  }

  lemma ReplayAppend(h: seq<Event>, e: Event, p: Policy)
    ensures Replay(h + [e], p) == Apply(Replay(h, p), e, p)
  {
    assert (h + [e])[..|h|] == h;
  }

  lemma QualifyAdds(front: seq<Event>, e: Event, p: Policy)
    requires IsQualify(e)
    ensures Replay(front + [e], p).samples ==
            Retain(Replay(front, p).samples, e.now, p.sampleWindowMs) +
            (if Counted(front + [e], p, |front|) then [e.now] else [])
  {
    ReplayAppend(front, e, p);
    AddsWhatCounts(front, e, p);
    assert Retain(Replay(front, p).samples, e.now, p.sampleWindowMs) + []
        == Retain(Replay(front, p).samples, e.now, p.sampleWindowMs);
  }

  lemma TimesAppend(h: seq<Event>, ps: seq<nat>, i: nat)
    requires forall k | k in ps :: k < |h| && h[k].Observed?
    requires i < |h| && h[i].Observed?
    ensures Times(h, ps + [i]) == Times(h, ps) + [h[i].now]
  {
  }

  lemma QualifySamples(front: seq<Event>, e: Event, p: Policy)
    requires IsQualify(e)
    requires Replay(front, p).samples == Times(front, Kept(front, p))
    ensures Replay(front + [e], p).samples == Times(front + [e], Kept(front + [e], p))
  {
    var h, kept := front + [e], Kept(front, p);
    assert h[..|h| - 1] == front && h[|front|] == e;
    assert Times(h, kept) == Times(front, kept);
    RetainTimes(h, p, kept, e.now);
    QualifyAdds(front, e, p);
    TimesAppend(h, RetainKept(h, p, kept, e.now), |front|);
  }

  /** Main result: on every history, under any clock, the incremental log decides
      exactly as the history deserves. */
  lemma CheckMeetsVerdict(h: seq<Event>, p: Policy, now: nat)
    ensures Check(Replay(h, p), p, now) == AnyClockVerdict(h, p, now)
  {
    var s, kept := Replay(h, p), Kept(h, p);
    ReplayNewest(h, p);
    ReplaySpoken(h, p);
    if s.lastQualifying.Some? {
      var newest: nat :| IsNewestAt(h, p, newest) && h[newest].now == s.lastQualifying.value;
      NewestIsLatest(h, p, newest);
      StoredIsUnexpired(h, p, now);
    }
  }

  /** What `check` counts is what the history says has not expired. */
  lemma StoredIsUnexpired(h: seq<Event>, p: Policy, now: nat)
    ensures |Retain(Replay(h, p).samples, now, p.sampleWindowMs)| == |Unexpired(h, p, now)|
  {
    var kept := Kept(h, p);
    KeptIncreasing(h, p);
    ReplaySamples(h, p);
    RetainTimes(h, p, kept, now);
    RetainKeptIncreasing(h, p, kept, now);
    var inWindow := RetainKept(h, p, kept, now);
    forall i: nat
      ensures i in Unexpired(h, p, now) <==> i in inWindow
    {
      if i < |h| {
        KeptIsSurvivors(h, p, i);
      }
    }
    EnumerationSize(inWindow, Unexpired(h, p, now));
  }
}
