/** The stateful decision engine of crates/protocol/src/presence.rs, with the history it stands for. */
module Presence {
  import opened Prelude
  import opened Addresses
  import opened Advertisements
  import opened Quorum
  import Evidence

  /** One device's evidence, updated in place. */
  class Eligibility {
    var qualifyingSamples: seq<nat>
    var lastQualifyingMs: Option<nat>
    var lastRevocationMs: Option<nat>
    var lastRssi: Option<int>
    /** Everything observed so far, nothing pruned. */
    ghost var history: seq<Evidence.Event>

    function Log(): Evidence.Log
      reads this
    {
      Evidence.Log(qualifyingSamples, lastQualifyingMs, lastRevocationMs, lastRssi)
    }

    ghost predicate Valid(policy: Evidence.Policy)
      reads this
    {
      Log() == Evidence.Replay(history, policy)
    }

    constructor ()
      ensures history == [] && forall policy :: Valid(policy)
    {
      qualifyingSamples := [];
      lastQualifyingMs, lastRevocationMs, lastRssi := None, None, None;
      history := [];
    }

    method InvalidateEvidence()
      modifies this`qualifyingSamples, this`lastQualifyingMs
      ensures qualifyingSamples == [] && lastQualifyingMs == None
    {
      qualifyingSamples := [];
      lastQualifyingMs := None;
    }

    method Invalidate(ghost policy: Evidence.Policy)
      requires Valid(policy)
      modifies this
      ensures Valid(policy)
      ensures history == old(history) + [Evidence.Invalidated]
    {
      assert (history + [Evidence.Invalidated])[..|history|] == history;
      InvalidateEvidence();
      lastRevocationMs := None;
      lastRssi := None;
      history := history + [Evidence.Invalidated];
    }

    method Observe(nowMs: nat, rssi: int, observation: Evidence.Observation, policy: Evidence.Policy)
      requires Valid(policy)
      modifies this
      ensures Valid(policy)
      ensures history == old(history) + [Evidence.Observed(nowMs, rssi, observation)]
    {
      ghost var e := Evidence.Observed(nowMs, rssi, observation);
      assert (history + [e])[..|history|] == history;
      history := history + [e];
      lastRssi := Some(rssi);
      match observation {
        case Revoke =>
          InvalidateEvidence();
          lastRevocationMs := Some(nowMs);
          return;
        case Ignore =>
          return;
        case Qualify =>
          lastRevocationMs := None;
      }
      qualifyingSamples := Evidence.Retain(qualifyingSamples, nowMs, policy.sampleWindowMs);
      if rssi < policy.thresholdDbm {
        return;
      }
      if lastQualifyingMs.Some? && SaturatingSub(nowMs, lastQualifyingMs.value) < Evidence.MIN_SAMPLE_SPACING_MS {
        return;
      }
      qualifyingSamples := qualifyingSamples + [nowMs];
      lastQualifyingMs := Some(nowMs);
    }

    /** Decides from the log exactly what the whole history deserves. */
    method Check(nowMs: nat, policy: Evidence.Policy) returns (r: Evidence.Decision)
      requires Valid(policy)
      ensures r == Evidence.AnyClockVerdict(history, policy, nowMs)
      ensures r == Evidence.Check(Log(), policy, nowMs)
    {
      Evidence.CheckMeetsVerdict(history, policy, nowMs);
      if lastQualifyingMs.None? {
        if lastRevocationMs.Some? && SaturatingSub(nowMs, lastRevocationMs.value) <= policy.freshnessMs {
          return Evidence.Deny(Evidence.DeviceLocked);
        }
        return Evidence.Deny(Evidence.NoDevice);
      }
      if SaturatingSub(nowMs, lastQualifyingMs.value) > policy.freshnessMs {
        return Evidence.Deny(Evidence.Stale);
      }
      var withinWindow := |Evidence.Retain(qualifyingSamples, nowMs, policy.sampleWindowMs)|;
      if withinWindow < policy.minimumSamples {
        return Evidence.Deny(Evidence.InsufficientSamples);
      }
      r := Evidence.Allow;
    }
  }

  /** How to recognise a device, how to read it, how strict to be. */
  datatype DeviceSpec = DeviceSpec(id: string, identity: Identity, profile: Profile, policy: Evidence.Policy)

  datatype Device = Device(spec: DeviceSpec, eligibility: Eligibility)

  /** What the fleet is told: advertisements, and scans that died. */
  datatype FleetEvent = Advertised(now: nat, ad: Advertisement) | ScanLost

  /** What a fleet event means to one device. */
  function DeviceEvent(spec: DeviceSpec, e: FleetEvent): Option<Evidence.Event> {
    match e
    case ScanLost => Some(Evidence.Invalidated)
    case Advertised(now, ad) =>
      if spec.identity.Matches(ad) then Some(Evidence.Observed(now, ad.rssi, spec.profile.Evaluate(ad))) else None
  }

  function DeviceHistory(spec: DeviceSpec, h: seq<FleetEvent>): seq<Evidence.Event> {
    if h == [] then []
    else
      var before := DeviceHistory(spec, h[..|h| - 1]);
      var e := DeviceEvent(spec, h[|h| - 1]);
      if e.Some? then before + [e.value] else before
  }

  lemma DeviceHistoryAppend(spec: DeviceSpec, h: seq<FleetEvent>, e: FleetEvent)
    ensures DeviceHistory(spec, h + [e]) ==
            DeviceHistory(spec, h) + (if DeviceEvent(spec, e).Some? then [DeviceEvent(spec, e).value] else [])
  {
    assert (h + [e])[..|h|] == h;
  }

  function FieldsNeededBy(specs: seq<DeviceSpec>): Needs {
    if specs == [] then NOTHING
    else
      var last := specs[|specs| - 1];
      FieldsNeededBy(specs[..|specs| - 1]).Union(last.identity.NeededFields()).Union(last.profile.NeededFields())
  }

  lemma {:induction false} NeedsCoverEverySpec(specs: seq<DeviceSpec>, i: nat)
    requires i < |specs|
    ensures FieldsNeededBy(specs).Covers(specs[i].identity.NeededFields())
    ensures FieldsNeededBy(specs).Covers(specs[i].profile.NeededFields())
  {
    if i < |specs| - 1 {
      NeedsCoverEverySpec(specs[..|specs| - 1], i);
    }
  }

  ghost function DeviceVerdict(spec: DeviceSpec, h: seq<FleetEvent>, now: nat): Evidence.Decision {
    Evidence.AnyClockVerdict(DeviceHistory(spec, h), spec.policy, now)
  }

  ghost function DeviceVerdicts(specs: seq<DeviceSpec>, h: seq<FleetEvent>, now: nat): seq<Evidence.Decision> {
    seq(|specs|, i requires 0 <= i < |specs| => DeviceVerdict(specs[i], h, now))
  }

  /** The fleet's decision as a function of everything it was ever told. */
  ghost function FleetVerdict(specs: seq<DeviceSpec>, rule: MultiDeviceAuth, h: seq<FleetEvent>, now: nat): Evidence.Decision {
    FleetDecision(DeviceVerdicts(specs, h, now), rule)
  }

  datatype DeviceStatus = DeviceStatus(id: string, profile: Profile, decision: Evidence.Decision, rssi: Option<int>)

  /** The status row of one device, as a function of everything the fleet was told. */
  ghost function StatusOf(spec: DeviceSpec, h: seq<FleetEvent>, now: nat): DeviceStatus {
    DeviceStatus(spec.id, spec.profile, DeviceVerdict(spec, h, now),
                 Evidence.Replay(DeviceHistory(spec, h), spec.policy).lastRssi)
  }

  /** The report on all devices, in configured order. */
  ghost function StatusRows(specs: seq<DeviceSpec>, h: seq<FleetEvent>, now: nat): seq<DeviceStatus> {
    seq(|specs|, i requires 0 <= i < |specs| => StatusOf(specs[i], h, now))
  }

  /** Every configured device plus the rule that combines them. */
  class Fleet {
    const devices: seq<Device>
    const multiDeviceAuth: MultiDeviceAuth
    const needs: Needs
    ghost var history: seq<FleetEvent>

    ghost function Eligibilities(): set<Eligibility> {
      set d | d in devices :: d.eligibility
    }

    function Specs(): seq<DeviceSpec> {
      seq(|devices|, i requires 0 <= i < |devices| => devices[i].spec)
    }

    /** Device `i` has seen exactly what `h` says about it. */
    ghost predicate DeviceStands(i: nat, h: seq<FleetEvent>)
      requires i < |devices|
      reads devices[i].eligibility
    {
      && devices[i].eligibility.history == DeviceHistory(devices[i].spec, h)
      && devices[i].eligibility.Valid(devices[i].spec.policy)
    }

    ghost predicate Distinct() {
      forall i, j | 0 <= i < j < |devices| :: devices[i].eligibility != devices[j].eligibility
    }

    ghost predicate Valid()
      reads this, Eligibilities()
    {
      && Distinct()
      && needs == FieldsNeededBy(Specs())
      && forall i | 0 <= i < |devices| :: DeviceStands(i, history)
    }

    constructor (specs: seq<DeviceSpec>, multiDeviceAuth: MultiDeviceAuth)
      ensures Valid() && fresh(Eligibilities())
      ensures Specs() == specs && this.multiDeviceAuth == multiDeviceAuth
      ensures history == []
    {
      var built: seq<Device> := [];
      for n := 0 to |specs|
        invariant |built| == n
        invariant forall i | 0 <= i < n ::
            built[i].spec == specs[i] && fresh(built[i].eligibility)
            && built[i].eligibility.history == [] && forall policy :: built[i].eligibility.Valid(policy)
        invariant forall i, j | 0 <= i < j < n :: built[i].eligibility != built[j].eligibility
      {
        var eligibility := new Eligibility();
        built := built + [Device(specs[n], eligibility)];
      }
      devices := built;
      this.multiDeviceAuth := multiDeviceAuth;
      needs := FieldsNeededBy(specs);
      history := [];
      new;
      assert Specs() == specs;
    }

    /** True when some device might be behind the address. */
    predicate IsInterested(address: Address) {
      exists i | 0 <= i < |devices| :: devices[i].spec.identity.Verdict(address) != Reject
    }

    /** Folds one advertisement into every device it matches. */
    method Observe(nowMs: nat, ad: Advertisement)
      requires Valid()
      modifies this`history, Eligibilities()
      ensures Valid()
      ensures history == old(history) + [Advertised(nowMs, ad)]
    {
      ghost var before, after := history, history + [Advertised(nowMs, ad)];
      for n := 0 to |devices|
        invariant history == before
        invariant forall i | 0 <= i < n :: DeviceStands(i, after)
        invariant forall i | n <= i < |devices| :: DeviceStands(i, before)
      {
        var device := devices[n];
        assert DeviceStands(n, before);
        DeviceHistoryAppend(device.spec, before, Advertised(nowMs, ad));
        if !device.spec.identity.Matches(ad) {
          assert DeviceStands(n, after);
          continue;
        }
        var observation := device.spec.profile.Evaluate(ad);
        device.eligibility.Observe(nowMs, ad.rssi, observation, device.spec.policy);
        assert DeviceStands(n, after);
      }
      history := after;
    }

    method Invalidate()
      requires Valid()
      modifies this`history, Eligibilities()
      ensures Valid()
      ensures history == old(history) + [ScanLost]
    {
      ghost var before, after := history, history + [ScanLost];
      for n := 0 to |devices|
        invariant history == before
        invariant forall i | 0 <= i < n :: DeviceStands(i, after)
        invariant forall i | n <= i < |devices| :: DeviceStands(i, before)
      {
        assert DeviceStands(n, before);
        DeviceHistoryAppend(devices[n].spec, before, ScanLost);
        devices[n].eligibility.Invalidate(devices[n].spec.policy);
        assert DeviceStands(n, after);
      }
      history := after;
    }

    /** One device's decision, from its own evidence. */
    method CheckDevice(n: nat, nowMs: nat) returns (r: Evidence.Decision)
      requires Valid() && n < |devices|
      ensures r == DeviceVerdicts(Specs(), history, nowMs)[n]
      ensures IsDeviceDecision(r)
    {
      assert DeviceStands(n, history);
      r := devices[n].eligibility.Check(nowMs, devices[n].spec.policy);
      CheckIsDeviceDecision(devices[n].eligibility.Log(), devices[n].spec.policy, nowMs);
    }

    /** The source's loop: how many devices allow, and the closest refusal of the others. */
    method Tally(nowMs: nat) returns (allowed: nat, closestDeny: Evidence.Reason)
      requires Valid()
      ensures Tallied(DeviceVerdicts(Specs(), history, nowMs), allowed, closestDeny)
    {
      ghost var ds := DeviceVerdicts(Specs(), history, nowMs);
      allowed := 0;
      closestDeny := Evidence.NoDevice;
      var closestRank := Evidence.Deny(closestDeny).Rank();
      for n := 0 to |devices|
        invariant Tallied(ds[..n], allowed, closestDeny)
        invariant closestRank == Evidence.Deny(closestDeny).Rank()
      {
        var decision := CheckDevice(n, nowMs);
        TallyNext(ds, n, allowed, closestDeny);
        match decision {
          case Allow =>
            allowed := allowed + 1;
          case Deny(reason) =>
            var rank := Evidence.Deny(reason).Rank();
            if rank < closestRank {
              closestDeny := reason;
              closestRank := rank;
            }
        }
      }
      assert ds[..|devices|] == ds;
    }

    /** Decides exactly what the whole history deserves under the configured rule. */
    method Check(nowMs: nat) returns (r: Evidence.Decision)
      requires Valid()
      ensures r == FleetVerdict(Specs(), multiDeviceAuth, history, nowMs)
    {
      if |devices| == 0 {
        return Evidence.Deny(Evidence.NoDevice);
      }
      var required := multiDeviceAuth.Required(|devices|);
      var allowed, closestDeny := Tally(nowMs);
      TallyDecides(DeviceVerdicts(Specs(), history, nowMs), required, allowed, closestDeny);
      if allowed >= required {
        return Evidence.Allow;
      }
      if allowed > 0 {
        return Evidence.Deny(Evidence.MultiDeviceAuth);
      }
      r := Evidence.Deny(closestDeny);
    }

    /** The per-device breakdown, in configured order. */
    method Report(nowMs: nat) returns (rows: seq<DeviceStatus>)
      requires Valid()
      ensures rows == StatusRows(Specs(), history, nowMs)
    {
      rows := [];
      for n := 0 to |devices|
        invariant rows == StatusRows(Specs(), history, nowMs)[..n]
      {
        var device := devices[n];
        assert DeviceStands(n, history);
        var decision := device.eligibility.Check(nowMs, device.spec.policy);
        rows := rows + [DeviceStatus(device.spec.id, device.spec.profile, decision, device.eligibility.lastRssi)];
      }
    }
  }
}
