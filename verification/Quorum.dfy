/** How per-device decisions become one decision (crates/protocol/src/presence.rs). */
module Quorum {
  import opened Prelude
  import opened Evidence

  datatype MultiDeviceAuth = Any | All | AtLeast(n: nat)
  {
    function Required(total: nat): nat {
      match this
      case Any => 1
      case All => total
      case AtLeast(n) => if n < 1 then 1 else n
    }
  }

  /** The decisions a single device can give. */
  predicate IsDeviceDecision(d: Decision) {
    d in {Allow, Deny(InsufficientSamples), Deny(Stale), Deny(DeviceLocked), Deny(NoDevice)}
  }

  /** The fleet's decision, from how many devices gave each decision. */
  function Aggregate(ds: multiset<Decision>, required: nat): Decision {
    if |ds| == 0 then Deny(NoDevice)
    else if ds[Allow] >= required then Allow
    else if ds[Allow] > 0 then Deny(MultiDeviceAuth)
    else if Deny(InsufficientSamples) in ds then Deny(InsufficientSamples)
    else if Deny(Stale) in ds then Deny(Stale)
    else if Deny(DeviceLocked) in ds then Deny(DeviceLocked)
    else Deny(NoDevice)
  }

  ghost function FleetDecision(ds: seq<Decision>, rule: MultiDeviceAuth): Decision {
    Aggregate(multiset(ds), rule.Required(|ds|))
  }

  lemma CheckIsDeviceDecision(s: Log, p: Policy, now: nat)
    ensures IsDeviceDecision(Check(s, p, now))
  {
  }

  /** When no device allows, the fleet reports the one reason closest to authorising. */
  lemma ReportsTheClosestReason(ds: seq<Decision>, rule: MultiDeviceAuth)
    requires ds != [] && forall d | d in ds :: IsDeviceDecision(d) && d != Allow
    ensures var r := FleetDecision(ds, rule);
            && r in ds
            && forall d | d in ds :: r.Rank() <= d.Rank() && (r.Rank() == d.Rank() ==> r == d)
  {
    assert forall d :: d in multiset(ds) <==> d in ds;
    assert ds[0] in ds;
  }

  lemma {:induction false} CountOfAll(ds: seq<Decision>)
    ensures multiset(ds)[Allow] <= |ds|
    ensures multiset(ds)[Allow] == |ds| <==> forall d | d in ds :: d == Allow
  {
    if ds != [] {
      var front, last := ds[..|ds| - 1], ds[|ds| - 1];
      assert ds == front + [last];
      CountOfAll(front);
      assert last in ds && forall d | d in front :: d in ds;
    }
  }

  /** The positions of the devices that allow. */
  function Allowing(ds: seq<Decision>): set<nat> {
    set i: nat | i < |ds| && ds[i] == Allow
  }

  lemma {:induction false} AllowingCount(ds: seq<Decision>)
    ensures |Allowing(ds)| == multiset(ds)[Allow]
  {
    if ds != [] {
      var n := |ds| - 1;
      AllowingCount(ds[..n]);
      assert ds == ds[..n] + [ds[n]];
      assert Allowing(ds) == Allowing(ds[..n]) + (if ds[n] == Allow then {n as nat} else {});
    }
  }

  /** What each rule demands, in numbers of allowing devices: one, every one, or n of them and at least one;
      and a fleet without devices never allows. */
  lemma RulesDemand(ds: seq<Decision>, n: nat)
    ensures FleetDecision(ds, Any) == Allow <==> |Allowing(ds)| >= 1
    ensures FleetDecision(ds, All) == Allow <==> ds != [] && |Allowing(ds)| == |ds|
    ensures FleetDecision(ds, AtLeast(n)) == Allow <==> |Allowing(ds)| >= 1 && |Allowing(ds)| >= n
  {
    AllowingCount(ds);
    CountOfAll(ds);
    assert |multiset(ds)| == |ds|;
  }

  /** A refusal for want of further devices means exactly that some allow and the rule demands more. */
  lemma PartialAllowNamesTheRule(ds: seq<Decision>, rule: MultiDeviceAuth)
    requires forall d | d in ds :: IsDeviceDecision(d)
    ensures FleetDecision(ds, rule) == Deny(MultiDeviceAuth) <==> FleetDecision(ds, rule) != Allow && |Allowing(ds)| >= 1
  {
    AllowingCount(ds);
    CountOfAll(ds);
    assert |multiset(ds)| == |ds|;
    assert forall d :: d in multiset(ds) <==> d in ds;
  }

  /** Rules are ordered: All demands at least what AtLeast(n) demands, and that at least what Any does. */
  lemma RulesAreOrdered(ds: seq<Decision>, n: nat)
    requires 1 <= n <= |ds|
    ensures FleetDecision(ds, All) == Allow ==> FleetDecision(ds, AtLeast(n)) == Allow
    ensures FleetDecision(ds, AtLeast(n)) == Allow ==> FleetDecision(ds, Any) == Allow
    ensures FleetDecision(ds, All) == Allow <==> forall d | d in ds :: d == Allow
    ensures FleetDecision(ds, Any) == Allow <==> Allow in ds
  {
    CountOfAll(ds);
  }

  /** Without new observations no fleet goes from refusing to allowing. */
  lemma {:induction false} FewerAllowLater(early: seq<Decision>, late: seq<Decision>)
    requires |early| == |late|
    requires forall i | 0 <= i < |early| :: early[i].Rank() <= late[i].Rank()
    ensures multiset(late)[Allow] <= multiset(early)[Allow]
  {
    if early != [] {
      var n := |early| - 1;
      FewerAllowLater(early[..n], late[..n]);
      assert early == early[..n] + [early[n]] && late == late[..n] + [late[n]];
    }
  }

  /** What the source's counters hold after the devices that gave `ds`. */
  ghost predicate Tallied(ds: seq<Decision>, allowed: nat, closest: Reason) {
    && allowed == multiset(ds)[Allow]
    && IsDeviceDecision(Deny(closest))
    && (Deny(closest) in ds || closest == NoDevice)
    && forall d | d in ds :: IsDeviceDecision(d) && (d == Allow || Deny(closest).Rank() <= d.Rank())
  }

  lemma TallyStep(ds: seq<Decision>, allowed: nat, closest: Reason, d: Decision)
    requires Tallied(ds, allowed, closest) && IsDeviceDecision(d)
    ensures Tallied(ds + [d],
                    if d == Allow then allowed + 1 else allowed,
                    if d.Deny? && d.Rank() < Deny(closest).Rank() then d.reason else closest)
  {
    assert d in ds + [d];
    assert forall x :: x in ds + [d] <==> x in ds || x == d;
  }

  /** The counters after one more device of `ds`. */
  lemma TallyNext(ds: seq<Decision>, n: nat, allowed: nat, closest: Reason)
    requires n < |ds| && Tallied(ds[..n], allowed, closest) && IsDeviceDecision(ds[n])
    ensures var d := ds[n];
            Tallied(ds[..n + 1],
                    if d == Allow then allowed + 1 else allowed,
                    if d.Deny? && d.Rank() < Deny(closest).Rank() then d.reason else closest)
  {
    assert ds[..n + 1] == ds[..n] + [ds[n]];
    TallyStep(ds[..n], allowed, closest, ds[n]);
  }

  lemma TallyDecides(ds: seq<Decision>, required: nat, allowed: nat, closest: Reason)
    requires Tallied(ds, allowed, closest) && ds != []
    ensures Aggregate(multiset(ds), required) ==
            if allowed >= required then Allow
            else if allowed > 0 then Deny(MultiDeviceAuth)
            else Deny(closest)
  {
    assert forall d :: d in multiset(ds) <==> d in ds;
  }
}
