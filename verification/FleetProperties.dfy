/** What an Allow proves about the advertisements heard, and how decisions change between them. */
module FleetProperties {
  import opened Prelude
  import opened Addresses
  import Text
  import opened Advertisements
  import opened Quorum
  import opened Presence
  import opened Config
  import Evidence
  import EvidenceProperties

  // ---------------------------------------------------------------------
  // From a device's history back to the fleet's
  // ---------------------------------------------------------------------

  /** Where in the fleet's history each event of one device's history came from. */
  ghost function Origins(spec: DeviceSpec, h: seq<FleetEvent>): (r: seq<nat>)
    ensures |r| == |DeviceHistory(spec, h)|
  {
    if h == [] then []
    else
      Origins(spec, h[..|h| - 1]) + (if DeviceEvent(spec, h[|h| - 1]).Some? then [|h| - 1] else [])
  }

  lemma {:induction false} OriginsIncrease(spec: DeviceSpec, h: seq<FleetEvent>)
    ensures StrictlyIncreasing(Origins(spec, h)) && forall o | o in Origins(spec, h) :: o < |h|
  {
    if h != [] {
      OriginsIncrease(spec, h[..|h| - 1]);
      AppendIncreasing(Origins(spec, h[..|h| - 1]), |h| - 1);
    }
  }

  /** The event at an origin is the device's event. */
  lemma {:induction false} OriginAt(spec: DeviceSpec, h: seq<FleetEvent>, k: nat)
    requires k < |DeviceHistory(spec, h)|
    ensures Origins(spec, h)[k] < |h|
    ensures DeviceEvent(spec, h[Origins(spec, h)[k]]) == Some(DeviceHistory(spec, h)[k])
  {
    if k < |DeviceHistory(spec, h[..|h| - 1])| {
      OriginAt(spec, h[..|h| - 1], k);
    }
  }

  /** Every event that means something to the device has its place in the device's history. */
  lemma {:induction false} OriginOf(spec: DeviceSpec, h: seq<FleetEvent>, q: nat) returns (k: nat)
    requires q < |h| && DeviceEvent(spec, h[q]).Some?
    ensures k < |Origins(spec, h)| && Origins(spec, h)[k] == q
  {
    if q == |h| - 1 {
      k := |Origins(spec, h)| - 1;
    } else {
      k := OriginOf(spec, h[..|h| - 1], q);
    }
  }

  // ---------------------------------------------------------------------
  // Evidence behind an Allow
  // ---------------------------------------------------------------------

  /** A matched advertisement strong enough and saying `Qualify`. */
  predicate IsSighting(spec: DeviceSpec, e: FleetEvent) {
    && e.Advertised?
    && spec.identity.Matches(e.ad)
    && spec.profile.Evaluate(e.ad) == Evidence.Qualify
    && e.ad.rssi >= spec.policy.thresholdDbm
  }

  predicate Revokes(spec: DeviceSpec, e: FleetEvent) {
    e.ScanLost? || (spec.identity.Matches(e.ad) && spec.profile.Evaluate(e.ad) == Evidence.Revoke)
  }

  /** `ps` are the fleet-history positions of advertisements that together justify one device. */
  ghost predicate Justifies(spec: DeviceSpec, h: seq<FleetEvent>, now: nat, ps: seq<nat>) {
    && StrictlyIncreasing(ps)
    && |ps| >= spec.policy.minimumSamples
    && |ps| > 0
    && (forall k | 0 <= k < |ps| ::
          && ps[k] < |h|
          && IsSighting(spec, h[ps[k]])
          && SaturatingSub(now, h[ps[k]].now) <= spec.policy.sampleWindowMs)
    && (forall k | 0 < k < |ps| :: h[ps[k - 1]].now + 50 <= h[ps[k]].now)
    && SaturatingSub(now, h[ps[|ps| - 1]].now) <= spec.policy.freshnessMs
    && (forall q | ps[0] <= q < |h| :: !Revokes(spec, h[q]))
  }

  ghost predicate Justified(spec: DeviceSpec, h: seq<FleetEvent>, now: nat) {
    exists ps :: Justifies(spec, h, now, ps)
  }

  /** The samples that count, in order. */
  lemma UnexpiredInOrder(h: seq<Evidence.Event>, p: Evidence.Policy, now: nat) returns (ks: seq<nat>)
    ensures StrictlyIncreasing(ks)
    ensures forall k: nat :: k in ks <==> k in Evidence.Unexpired(h, p, now)
    ensures |ks| == |Evidence.Unexpired(h, p, now)|
  {
    var kept := Evidence.Kept(h, p);
    Evidence.KeptIncreasing(h, p);
    ks := Evidence.RetainKept(h, p, kept, now);
    Evidence.RetainKeptIncreasing(h, p, kept, now);
    forall k: nat
      ensures k in ks <==> k in Evidence.Unexpired(h, p, now)
    {
      if k < |h| {
        Evidence.KeptIsSurvivors(h, p, k);
      }
    }
    EnumerationSize(ks, Evidence.Unexpired(h, p, now));
  }

  /** If any sample counts, the newest live one does. */
  lemma NewestCounts(h: seq<Evidence.Event>, p: Evidence.Policy, now: nat, some: nat) returns (newest: nat)
    requires some in Evidence.Unexpired(h, p, now)
    ensures newest in Evidence.Unexpired(h, p, now)
    ensures forall i | i in Evidence.LiveSet(h, p) :: i <= newest && h[i].now <= h[newest].now
  {
    Evidence.ReplayNewest(h, p);
    newest :| Evidence.IsNewestAt(h, p, newest);
    Evidence.NewestIsLatest(h, p, newest);
    assert Evidence.Live(h, p, some);
  }

  lemma LastCountedIsFresh(h: seq<Evidence.Event>, p: Evidence.Policy, now: nat, ks: seq<nat>)
    requires Evidence.AnyClockVerdict(h, p, now) == Evidence.Allow
    requires StrictlyIncreasing(ks) && ks != []
    requires forall k: nat :: k in ks <==> k in Evidence.Unexpired(h, p, now)
    ensures ks[|ks| - 1] < |h| && h[ks[|ks| - 1]].Observed?
    ensures SaturatingSub(now, h[ks[|ks| - 1]].now) <= p.freshnessMs
  {
    var last := ks[|ks| - 1];
    assert last in ks;
    var newest := NewestCounts(h, p, now, last);
    assert newest in ks;
    assert newest <= last;
    assert last in Evidence.LiveSet(h, p);
    assert last == newest;
  }

  /** A live sample came from an advertisement that was a sighting, at the same time. */
  lemma SampleWasSighting(spec: DeviceSpec, h: seq<FleetEvent>, k: nat)
    requires Evidence.Live(DeviceHistory(spec, h), spec.policy, k)
    ensures var q := Origins(spec, h)[k];
            q < |h| && IsSighting(spec, h[q]) && h[q].now == DeviceHistory(spec, h)[k].now
  {
    OriginAt(spec, h, k);
  }

  lemma SightingsInOrder(spec: DeviceSpec, h: seq<FleetEvent>, i: nat, j: nat)
    requires Evidence.Live(DeviceHistory(spec, h), spec.policy, i)
    requires Evidence.Live(DeviceHistory(spec, h), spec.policy, j)
    requires i < j
    ensures var p, q := Origins(spec, h)[i], Origins(spec, h)[j];
            p < q < |h| && h[p].Advertised? && h[q].Advertised? && h[p].now + Evidence.MIN_SAMPLE_SPACING_MS <= h[q].now
  {
    OriginsIncrease(spec, h);
    SampleWasSighting(spec, h, i);
    SampleWasSighting(spec, h, j);
    Evidence.LiveSpacing(DeviceHistory(spec, h), spec.policy, i, j);
  }

  /** The `m`-th sample that counts came from a sighting the window still admits. */
  lemma SampleIsAdmitted(spec: DeviceSpec, h: seq<FleetEvent>, now: nat, k: nat)
    requires k in Evidence.Unexpired(DeviceHistory(spec, h), spec.policy, now)
    ensures Evidence.Live(DeviceHistory(spec, h), spec.policy, k)
    ensures var q := Origins(spec, h)[k];
            q < |h| && IsSighting(spec, h[q]) && SaturatingSub(now, h[q].now) <= spec.policy.sampleWindowMs
    ensures h[Origins(spec, h)[k]].now == DeviceHistory(spec, h)[k].now
  {
    SampleWasSighting(spec, h, k);
  }

  /** A device allows only on advertisements that justify it, under any clock. */
  lemma DeviceAllowIsJustified(spec: DeviceSpec, h: seq<FleetEvent>, now: nat)
    requires DeviceVerdict(spec, h, now) == Evidence.Allow && spec.policy.minimumSamples > 0
    ensures Justified(spec, h, now)
  {
    var dh, p := DeviceHistory(spec, h), spec.policy;
    var ks := UnexpiredInOrder(dh, p, now);
    LastCountedIsFresh(dh, p, now, ks);
    forall m | 0 <= m < |ks|
      ensures ks[m] in Evidence.Unexpired(dh, p, now)
    {
      assert ks[m] in ks;
    }
    PositionsJustify(spec, h, now, ks);
  }

  lemma PositionsJustify(spec: DeviceSpec, h: seq<FleetEvent>, now: nat, ks: seq<nat>)
    requires StrictlyIncreasing(ks) && |ks| >= spec.policy.minimumSamples && |ks| > 0
    requires forall m | 0 <= m < |ks| :: ks[m] in Evidence.Unexpired(DeviceHistory(spec, h), spec.policy, now)
    requires var last := ks[|ks| - 1];
             && last < |DeviceHistory(spec, h)| && DeviceHistory(spec, h)[last].Observed?
             && SaturatingSub(now, DeviceHistory(spec, h)[last].now) <= spec.policy.freshnessMs
    ensures Justified(spec, h, now)
  {
    forall m | 0 <= m < |ks|
      ensures Evidence.Live(DeviceHistory(spec, h), spec.policy, ks[m])
      ensures var q := Origins(spec, h)[ks[m]];
              && q < |h| && IsSighting(spec, h[q]) && SaturatingSub(now, h[q].now) <= spec.policy.sampleWindowMs
              && h[q].now == DeviceHistory(spec, h)[ks[m]].now
    {
      SampleIsAdmitted(spec, h, now, ks[m]);
    }
    var ps := seq(|ks|, m requires 0 <= m < |ks| => Origins(spec, h)[ks[m]]);
    forall m, n | 0 <= m < n < |ps|
      ensures ps[m] < ps[n]
      ensures h[ps[m]].now + Evidence.MIN_SAMPLE_SPACING_MS <= h[ps[n]].now
    {
      SightingsInOrder(spec, h, ks[m], ks[n]);
    }
    forall q | ps[0] <= q < |h|
      ensures !Revokes(spec, h[q])
    {
      NoRevocationSince(spec, h, ks[0], q);
    }
    assert Justifies(spec, h, now, ps);
  }

  lemma NoRevocationSince(spec: DeviceSpec, h: seq<FleetEvent>, k: nat, q: nat)
    requires Evidence.Live(DeviceHistory(spec, h), spec.policy, k)
    requires Origins(spec, h)[k] <= q < |h|
    ensures !Revokes(spec, h[q])
  {
    var dh := DeviceHistory(spec, h);
    if DeviceEvent(spec, h[q]).Some? {
      OriginsIncrease(spec, h);
      var at := OriginOf(spec, h, q);
      OriginAt(spec, h, at);
      assert k <= at;
      assert !Evidence.IsReset(dh[at]);
    }
  }

  /** The number of devices satisfies the rule: one, all, or the number it names. */
  predicate Satisfies(count: nat, rule: MultiDeviceAuth, total: nat) {
    match rule
    case Any => count >= 1
    case All => count == total
    case AtLeast(n) => count >= n && count >= 1
  }

  /** An allowing fleet has as many allowing devices as its rule demands. */
  lemma EnoughDevicesAllow(specs: seq<DeviceSpec>, rule: MultiDeviceAuth, h: seq<FleetEvent>, now: nat) returns (present: set<nat>)
    requires FleetVerdict(specs, rule, h, now) == Evidence.Allow
    ensures Satisfies(|present|, rule, |specs|) && specs != []
    ensures forall i | i in present :: i < |specs| && DeviceVerdict(specs[i], h, now) == Evidence.Allow
  {
    var ds := DeviceVerdicts(specs, h, now);
    present := Allowing(ds);
    RulesDemand(ds, if rule.AtLeast? then rule.n else 0);
  }

  /** The device is justified, by a policy inside the limits. */
  ghost predicate StandsUp(spec: DeviceSpec, h: seq<FleetEvent>, now: nat) {
    && Justified(spec, h, now)
    && spec.policy.minimumSamples >= 1
    && spec.policy.sampleWindowMs <= 30_000
    && spec.policy.freshnessMs <= 10_000
  }

  /** Main result: an Allow from a resolved configuration means that at least as many devices as the
      rule demands are each justified by advertisements, within 30 s and the newest within 10 s. */
  lemma AllowIsJustified(c: ConfigFile, d: Decoders, s: Settings, h: seq<FleetEvent>, now: nat) returns (present: set<nat>)
    requires IsResolution(c, d, s)
    requires FleetVerdict(s.devices, s.multiDeviceAuth, h, now) == Evidence.Allow
    ensures Satisfies(|present|, s.multiDeviceAuth, |s.devices|) && |present| >= 1
    ensures forall i | i in present :: i < |s.devices| && StandsUp(s.devices[i], h, now)
  {
    ResolvedFleetIsSound(c, d, s);
    present := EnoughDevicesAllow(s.devices, s.multiDeviceAuth, h, now);
    forall i | i in present
      ensures StandsUp(s.devices[i], h, now)
    {
      assert Sound(s.devices[i]);
      DeviceAllowIsJustified(s.devices[i], h, now);
    }
  }

  /** The address was advertised within the last `age` ms. */
  ghost predicate HeardFrom(h: seq<FleetEvent>, now: nat, age: nat, a: Address) {
    exists q :: 0 <= q < |h| && h[q].Advertised? && h[q].ad.address == a && SaturatingSub(now, h[q].now) <= age
  }

  /** When every device sets an address, an Allow under a rule demanding n devices means n different
      addresses were advertised within the last 10 s. */
  lemma AllowNeedsDistinctAddresses(c: ConfigFile, d: Decoders, s: Settings, h: seq<FleetEvent>, now: nat)
    returns (heard: set<Address>)
    requires IsResolution(c, d, s)
    requires forall spec | spec in s.devices :: spec.identity.address.Some?
    requires FleetVerdict(s.devices, s.multiDeviceAuth, h, now) == Evidence.Allow
    ensures Satisfies(|heard|, s.multiDeviceAuth, |s.devices|) && |heard| >= 1
    ensures forall a | a in heard :: HeardFrom(h, now, 10_000, a)
  {
    var present := AllowIsJustified(c, d, s, h, now);
    ResolvedAddresses(c, d, s);
    heard := AddressesOf(s.devices, present);
    forall a | a in heard
      ensures HeardFrom(h, now, 10_000, a)
    {
      var i :| i in present && s.devices[i].identity.address == Some(a);
      JustifiedWasHeard(s.devices[i], h, now);
    }
  }

  lemma ResolvedAddresses(c: ConfigFile, d: Decoders, s: Settings)
    requires IsResolution(c, d, s)
    requires forall spec | spec in s.devices :: spec.identity.address.Some?
    ensures HaveDistinctAddresses(s.devices)
  {
    ResolvedFleetIsSound(c, d, s);
    assert forall i | 0 <= i < |s.devices| :: s.devices[i] in s.devices;
    assert forall i, j | 0 <= i < j < |s.devices| :: AreDistinct(s.devices[i], s.devices[j]);
  }

  /** The devices have fixed addresses, no two the same. */
  ghost predicate HaveDistinctAddresses(specs: seq<DeviceSpec>) {
    && (forall i | 0 <= i < |specs| :: specs[i].identity.address.Some?)
    && (forall i, j | 0 <= i < j < |specs| :: specs[i].identity.address != specs[j].identity.address)
  }

  lemma {:induction false} AddressesOf(specs: seq<DeviceSpec>, present: set<nat>) returns (addresses: set<Address>)
    requires HaveDistinctAddresses(specs) && forall i | i in present :: i < |specs|
    ensures |addresses| == |present|
    ensures forall a | a in addresses :: exists i :: i in present && specs[i].identity.address == Some(a)
    decreases |present|
  {
    if present == {} {
      addresses := {};
    } else {
      var i :| i in present;
      var others := AddressesOf(specs, present - {i});
      var a := specs[i].identity.address.value;
      assert specs[i].identity.address == Some(a);
      forall b | b in others
        ensures b != a
      {
        var j :| j in present - {i} && specs[j].identity.address == Some(b);
        assert if i < j then specs[i].identity.address != specs[j].identity.address
               else specs[j].identity.address != specs[i].identity.address;
      }
      addresses := others + {a};
    }
  }

  lemma JustifiedWasHeard(spec: DeviceSpec, h: seq<FleetEvent>, now: nat)
    requires StandsUp(spec, h, now) && spec.identity.address.Some?
    ensures HeardFrom(h, now, 10_000, spec.identity.address.value)
  {
    var ps :| Justifies(spec, h, now, ps);
    assert IsSighting(spec, h[ps[|ps| - 1]]);
  }

  // ---------------------------------------------------------------------
  // Order
  // ---------------------------------------------------------------------

  lemma RemoveOne<T>(xs: seq<T>, k: nat)
    requires k < |xs|
    ensures multiset(xs) == multiset(RemoveAt(xs, k)) + multiset{xs[k]}
  {
    assert xs == xs[..k] + [xs[k]] + xs[k + 1..];
  }

  lemma RemoveSame<T>(xs: seq<T>, i: nat, ys: seq<T>, k: nat)
    requires multiset(xs) == multiset(ys) && i < |xs| && k < |ys| && xs[i] == ys[k]
    ensures multiset(RemoveAt(xs, i)) == multiset(RemoveAt(ys, k))
  {
    RemoveOne(xs, i);
    RemoveOne(ys, k);
    assert multiset(RemoveAt(xs, i)) == multiset(xs) - multiset{xs[i]};
    assert multiset(RemoveAt(ys, k)) == multiset(ys) - multiset{ys[k]};
  }

  lemma VerdictsAround(specs: seq<DeviceSpec>, k: nat, h: seq<FleetEvent>, now: nat)
    requires k < |specs|
    ensures multiset(DeviceVerdicts(specs, h, now)) ==
            multiset(DeviceVerdicts(RemoveAt(specs, k), h, now)) + multiset{DeviceVerdict(specs[k], h, now)}
  {
    var ds := DeviceVerdicts(specs, h, now);
    RemoveOne(ds, k);
    assert RemoveAt(ds, k) == DeviceVerdicts(RemoveAt(specs, k), h, now);
  }

  lemma FindIn<T>(x: T, ys: seq<T>) returns (k: nat)
    requires x in multiset(ys)
    ensures k < |ys| && ys[k] == x
  {
    k :| k < |ys| && ys[k] == x;
  }

  lemma VerdictsMatch(specs: seq<DeviceSpec>, i: nat, others: seq<DeviceSpec>, k: nat, h: seq<FleetEvent>, now: nat)
    requires i < |specs| && k < |others| && specs[i] == others[k]
    requires multiset(DeviceVerdicts(RemoveAt(specs, i), h, now)) ==
             multiset(DeviceVerdicts(RemoveAt(others, k), h, now))
    ensures multiset(DeviceVerdicts(specs, h, now)) == multiset(DeviceVerdicts(others, h, now))
  {
    VerdictsAround(specs, i, h, now);
    VerdictsAround(others, k, h, now);
  }

  lemma {:induction false} VerdictsPermute(specs: seq<DeviceSpec>, reordered: seq<DeviceSpec>, h: seq<FleetEvent>, now: nat)
    requires multiset(specs) == multiset(reordered)
    ensures multiset(DeviceVerdicts(specs, h, now)) == multiset(DeviceVerdicts(reordered, h, now))
    decreases |specs|
  {
    if specs == [] {
      assert |multiset(reordered)| == |reordered|;
    } else {
      assert specs[0] in multiset(specs);
      var k := FindIn(specs[0], reordered);
      RemoveSame(specs, 0, reordered, k);
      VerdictsPermute(RemoveAt(specs, 0), RemoveAt(reordered, k), h, now);
      VerdictsMatch(specs, 0, reordered, k, h, now);
    }
  }

  /** The order of the devices in the configuration never changes the fleet's decision. */
  lemma OrderIsIrrelevant(specs: seq<DeviceSpec>, reordered: seq<DeviceSpec>, rule: MultiDeviceAuth, h: seq<FleetEvent>, now: nat)
    requires multiset(specs) == multiset(reordered)
    ensures FleetVerdict(specs, rule, h, now) == FleetVerdict(reordered, rule, h, now)
  {
    VerdictsPermute(specs, reordered, h, now);
    assert |multiset(specs)| == |specs| && |multiset(reordered)| == |reordered|;
  }

  // ---------------------------------------------------------------------
  // Between observations
  // ---------------------------------------------------------------------

  /** With nothing heard in between, a fleet that refuses goes on refusing. */
  lemma RefusalPersists(specs: seq<DeviceSpec>, rule: MultiDeviceAuth, h: seq<FleetEvent>, early: nat, late: nat)
    requires early <= late
    requires FleetVerdict(specs, rule, h, early) != Evidence.Allow
    ensures FleetVerdict(specs, rule, h, late) != Evidence.Allow
  {
    var ds, es := DeviceVerdicts(specs, h, early), DeviceVerdicts(specs, h, late);
    forall i | 0 <= i < |specs|
      ensures ds[i].Rank() <= es[i].Rank()
    {
      var dh, p := DeviceHistory(specs[i], h), specs[i].policy;
      Evidence.CheckMeetsVerdict(dh, p, early);
      Evidence.CheckMeetsVerdict(dh, p, late);
      EvidenceProperties.DecisionsDecay(Evidence.Replay(dh, p), p, early, late);
    }
    FewerAllowLater(ds, es);
    assert |multiset(ds)| == |ds| && |multiset(es)| == |es|;
  }

  /** The event tells the device nothing: not its advertisement, one it ignores, or another lost scan. */
  predicate TellsNothing(spec: DeviceSpec, e: FleetEvent) {
    var meant := DeviceEvent(spec, e);
    meant.Some? ==> meant.value.Invalidated? || meant.value.observation.Ignore?
  }

  lemma {:induction false} NothingSinceLostScan(spec: DeviceSpec, h: seq<FleetEvent>, after: seq<FleetEvent>)
    requires forall e | e in after :: TellsNothing(spec, e)
    ensures var log := Evidence.Replay(DeviceHistory(spec, h + [ScanLost] + after), spec.policy);
            log.lastQualifying.None? && log.lastRevocation.None?
  {
    if after == [] {
      assert h + [ScanLost] + after == h + [ScanLost];
      DeviceHistoryAppend(spec, h, ScanLost);
      Evidence.ReplayAppend(DeviceHistory(spec, h), Evidence.Invalidated, spec.policy);
    } else {
      var front, e := after[..|after| - 1], after[|after| - 1];
      assert e in after && TellsNothing(spec, e);
      NothingSinceLostScan(spec, h, front);
      assert h + [ScanLost] + after == (h + [ScanLost] + front) + [e];
      DeviceHistoryAppend(spec, h + [ScanLost] + front, e);
      if DeviceEvent(spec, e).Some? {
        Evidence.ReplayAppend(DeviceHistory(spec, h + [ScanLost] + front), DeviceEvent(spec, e).value, spec.policy);
      }
    }
  }

  /** After a scan is lost, and until some device is heard to qualify or revoke, every decision is
      `no-device`, at any time. */
  lemma LostScanForgetsEverything(specs: seq<DeviceSpec>, rule: MultiDeviceAuth, h: seq<FleetEvent>, after: seq<FleetEvent>, now: nat)
    requires forall spec, e | spec in specs && e in after :: TellsNothing(spec, e)
    ensures FleetVerdict(specs, rule, h + [ScanLost] + after, now) == Evidence.Deny(Evidence.NoDevice)
  {
    var whole := h + [ScanLost] + after;
    var ds := DeviceVerdicts(specs, whole, now);
    forall i | 0 <= i < |ds|
      ensures ds[i] == Evidence.Deny(Evidence.NoDevice)
    {
      assert specs[i] in specs;
      NothingSinceLostScan(specs[i], h, after);
      Evidence.CheckMeetsVerdict(DeviceHistory(specs[i], whole), specs[i].policy, now);
    }
    assert forall d | d in multiset(ds) :: d in ds;
    if ds != [] {
      assert ds[0] in ds;
      ReportsTheClosestReason(ds, rule);
    }
  }

  // ---------------------------------------------------------------------
  // One device counted twice
  // ---------------------------------------------------------------------

  function ByName(id: string): DeviceEntry {
    DeviceEntry(id, "presence", None, None, None, Some("P"), None, Some(1), None, None)
  }

  function ByNameTwice(): ConfigFile {
    ConfigFile(None, Some("all"), [ByName("a"), ByName("b")])
  }

  function NamedSpec(id: string): DeviceSpec {
    DeviceSpec(id, Identity(None, None, None, Some("P")), Advertisements.Presence, Evidence.Policy(-75, 1, 3_000, 2_500))
  }

  function TwoByName(): Settings {
    Settings(None, All, [NamedSpec("a"), NamedSpec("b")])
  }

  lemma ByNameTwiceResolves(d: Decoders)
    ensures IsResolution(ByNameTwice(), d, TwoByName())
  {
    NamedResolves("a", d);
    NamedResolves("b", d);
    NamedHasNoKey("a", d);
    NamedHasNoKey("b", d);
    assert "a"[0] != "b"[0];
    assert RuleOf(ByNameTwice()) == Ok(All);
  }

  lemma NamedHasNoKey(id: string, d: Decoders)
    ensures KeyOf(ByName(id), d) == IdentityKey(None, None)
  {
  }

  /** Distinct ids, keys and addresses are not distinct hardware: a file that asks for all of two devices,
      each recognised by name, is accepted, and one advertisement then authorises. */
  lemma OneAdvertisementSatisfiesAll(d: Decoders, a: Address) returns (s: Settings)
    ensures IsResolution(ByNameTwice(), d, s) && s.multiDeviceAuth == All && |s.devices| == 2
    ensures var ad := Advertisement(a, -60, Some("P"), None, None, None);
            FleetVerdict(s.devices, s.multiDeviceAuth, [Advertised(0, ad)], 0) == Evidence.Allow
  {
    s := TwoByName();
    ByNameTwiceResolves(d);
    var ad := Advertisement(a, -60, Some("P"), None, None, None);
    NamedAllows("a", ad);
    NamedAllows("b", ad);
    var ds := DeviceVerdicts(s.devices, [Advertised(0, ad)], 0);
    assert ds == [Evidence.Allow, Evidence.Allow];
  }

  lemma NamedResolves(id: string, d: Decoders)
    ensures ResolveEntry(ByName(id), d) == Ok(NamedSpec(id))
  {
    assert "P"[0] in "P" && !Text.IsWhitespace('P');
  }

  lemma NamedAllows(id: string, ad: Advertisement)
    requires ad.name == Some("P") && ad.rssi == -60
    ensures DeviceVerdict(NamedSpec(id), [Advertised(0, ad)], 0) == Evidence.Allow
  {
    var spec, e := NamedSpec(id), Advertised(0, ad);
    assert [e] == [] + [e];
    DeviceHistoryAppend(spec, [], e);
    assert DeviceHistory(spec, []) == [];
    var seen := Evidence.Observed(0, -60, Evidence.Qualify);
    Evidence.ReplayAppend([], seen, spec.policy);
    assert DeviceHistory(spec, [e]) == [seen];
    Evidence.CheckMeetsVerdict([seen], spec.policy, 0);
  }
}
