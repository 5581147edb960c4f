/** The scan loop of crates/daemon/src/scan.rs and its two shortcuts. */
module Scanner {
  import opened Prelude
  import opened Advertisements
  import opened Presence
  import Evidence
  import Quorum

  /** What the adapter reports: a device with the properties it would answer reads with, or anything else.
      `live` is whether it has an RSSI; without one there is no live advertisement. */
  datatype AdapterEvent =
    | DeviceAdded(now: nat, ad: Advertisement, live: bool)
    | Other

  /** The advertisements among the events, with every field read. */
  function Heard(events: seq<AdapterEvent>): seq<FleetEvent> {
    if events == [] then []
    else
      var before := Heard(events[..|events| - 1]);
      var e := events[|events| - 1];
      if e.DeviceAdded? && e.live then before + [Advertised(e.now, e.ad)] else before
  }

  /** No device would notice if `e` were replaced by `e'`, or dropped when `e'` is None. */
  ghost predicate SameToEveryDevice(specs: seq<DeviceSpec>, e: FleetEvent, e': Option<FleetEvent>) {
    forall i | 0 <= i < |specs| ::
      DeviceEvent(specs[i], e) == if e'.Some? then DeviceEvent(specs[i], e'.value) else None
  }

  /** An address no device can be behind is dropped unseen; fields nobody declared are not fetched. */
  lemma ShortcutsAreInvisible(specs: seq<DeviceSpec>, now: nat, ad: Advertisement)
    ensures SameToEveryDevice(specs, Advertised(now, ad), Some(Advertised(now, Fetched(ad, FieldsNeededBy(specs)))))
    ensures (forall i | 0 <= i < |specs| :: specs[i].identity.Verdict(ad.address) == Reject) ==>
              SameToEveryDevice(specs, Advertised(now, ad), None)
  {
    forall i | 0 <= i < |specs|
      ensures DeviceEvent(specs[i], Advertised(now, ad)) ==
              DeviceEvent(specs[i], Advertised(now, Fetched(ad, FieldsNeededBy(specs))))
    {
      NeedsCoverEverySpec(specs, i);
      ReadsOnlyDeclaredFields(specs[i].identity, specs[i].profile, ad, FieldsNeededBy(specs));
    }
  }

  /** The two histories mean the same to every device. */
  ghost predicate Equivalent(specs: seq<DeviceSpec>, a: seq<FleetEvent>, b: seq<FleetEvent>) {
    forall i | 0 <= i < |specs| :: DeviceHistory(specs[i], a) == DeviceHistory(specs[i], b)
  }

  lemma EquivalentAppend(specs: seq<DeviceSpec>, a: seq<FleetEvent>, b: seq<FleetEvent>, e: FleetEvent, e': Option<FleetEvent>)
    requires Equivalent(specs, a, b) && SameToEveryDevice(specs, e, e')
    ensures Equivalent(specs, a + [e], b + (if e'.Some? then [e'.value] else []))
  {
    forall i | 0 <= i < |specs|
      ensures DeviceHistory(specs[i], a + [e]) == DeviceHistory(specs[i], b + (if e'.Some? then [e'.value] else []))
    {
      DeviceHistoryAppend(specs[i], a, e);
      if e'.Some? {
        DeviceHistoryAppend(specs[i], b, e'.value);
      } else {
        assert b + [] == b;
      }
    }
  }

  /** Equivalent histories get the same decision and the same status rows at every time. */
  lemma EquivalentDecides(specs: seq<DeviceSpec>, rule: Quorum.MultiDeviceAuth, a: seq<FleetEvent>, b: seq<FleetEvent>, now: nat)
    requires Equivalent(specs, a, b)
    ensures FleetVerdict(specs, rule, a, now) == FleetVerdict(specs, rule, b, now)
    ensures forall i | 0 <= i < |specs| :: StatusOf(specs[i], a, now) == StatusOf(specs[i], b, now)
  {
    assert DeviceVerdicts(specs, a, now) == DeviceVerdicts(specs, b, now);
  }

  /** What the scan shows the fleet: an advertisement some device may be behind, with no field nobody needs. */
  ghost predicate IsSparing(specs: seq<DeviceSpec>, needs: Needs, e: FleetEvent) {
    && e.Advertised?
    && Fetched(e.ad, needs) == e.ad
    && exists i :: 0 <= i < |specs| && specs[i].identity.Verdict(e.ad.address) != Reject
  }

  /** What one event adds to what is heard. */
  function HeardIn(e: AdapterEvent): seq<FleetEvent> {
    if e.DeviceAdded? && e.live then [Advertised(e.now, e.ad)] else []
  }

  lemma HeardAppend(events: seq<AdapterEvent>, n: nat)
    requires n < |events|
    ensures Heard(events[..n + 1]) == Heard(events[..n]) + HeardIn(events[n])
  {
    assert events[..n + 1][..n] == events[..n];
  }

  /** Equivalent histories stay so under what one of them goes on to be equivalent to. */
  lemma EquivalentThen(specs: seq<DeviceSpec>, heard: seq<FleetEvent>, before: seq<FleetEvent>, e: AdapterEvent, after: seq<FleetEvent>)
    requires Equivalent(specs, heard, before) && Equivalent(specs, before + HeardIn(e), after)
    ensures Equivalent(specs, heard + HeardIn(e), after)
  {
    if HeardIn(e) != [] {
      forall i | 0 <= i < |specs|
        ensures DeviceHistory(specs[i], heard + HeardIn(e)) == DeviceHistory(specs[i], before + HeardIn(e))
      {
        DeviceHistoryAppend(specs[i], heard, HeardIn(e)[0]);
        DeviceHistoryAppend(specs[i], before, HeardIn(e)[0]);
      }
    } else {
      assert heard + [] == heard && before + [] == before;
    }
  }

  /** One turn of the loop: an event of another kind, an address nobody is interested in, no live
      advertisement, or an advertisement assembled from the needed fields and shown to the fleet. */
  method ScanEvent(fleet: Fleet, event: AdapterEvent)
    requires fleet.Valid()
    modifies fleet`history, fleet.Eligibilities()
    ensures fleet.Valid()
    ensures Equivalent(fleet.Specs(), old(fleet.history) + HeardIn(event), fleet.history)
    ensures old(fleet.history) <= fleet.history
    ensures forall k | |old(fleet.history)| <= k < |fleet.history| :: IsSparing(fleet.Specs(), fleet.needs, fleet.history[k])
  {
    ghost var specs, before := fleet.Specs(), fleet.history;
    assert before + [] == before;
    if event.Other? {
      return;
    }
    ghost var e := Advertised(event.now, event.ad);
    ShortcutsAreInvisible(specs, event.now, event.ad);
    if !fleet.IsInterested(event.ad.address) {
      EquivalentAppend(specs, before, before, e, None);
      return;
    }
    if !event.live {
      return;
    }
    ghost var shown := Advertised(event.now, Fetched(event.ad, fleet.needs));
    assert IsSparing(specs, fleet.needs, shown) by {
      var i :| 0 <= i < |fleet.devices| && fleet.devices[i].spec.identity.Verdict(event.ad.address) != Reject;
      assert specs[i] == fleet.devices[i].spec;
    }
    fleet.Observe(event.now, Fetched(event.ad, fleet.needs));
    EquivalentAppend(specs, before, before, e, Some(shown));
  }

  /** Main result: the scan loop, which filters by address and fetches only needed fields, leaves the
      fleet as if it had been shown every advertisement in full. */
  method Scan(fleet: Fleet, events: seq<AdapterEvent>)
    requires fleet.Valid()
    modifies fleet`history, fleet.Eligibilities()
    ensures fleet.Valid()
    ensures Equivalent(fleet.Specs(), old(fleet.history) + Heard(events), fleet.history)
    ensures old(fleet.history) <= fleet.history
    ensures forall k | |old(fleet.history)| <= k < |fleet.history| :: IsSparing(fleet.Specs(), fleet.needs, fleet.history[k])
    ensures forall i | 0 <= i < |fleet.devices| ::
              var spec := fleet.devices[i].spec;
              fleet.devices[i].eligibility.Log() ==
              Evidence.Replay(DeviceHistory(spec, old(fleet.history) + Heard(events)), spec.policy)
  {
    ghost var specs, start := fleet.Specs(), fleet.history;
    assert start + Heard(events[..0]) == start;
    for n := 0 to |events|
      invariant fleet.Valid()
      invariant Equivalent(specs, start + Heard(events[..n]), fleet.history)
      invariant start <= fleet.history
      invariant forall k | |start| <= k < |fleet.history| :: IsSparing(specs, fleet.needs, fleet.history[k])
    {
      ghost var before := fleet.history;
      ScanEvent(fleet, events[n]);
      EquivalentThen(specs, start + Heard(events[..n]), before, events[n], fleet.history);
      HeardAppend(events, n);
      assert start + Heard(events[..n + 1]) == start + Heard(events[..n]) + HeardIn(events[n]);
    }
    assert events[..|events|] == events;
    forall i | 0 <= i < |fleet.devices|
      ensures fleet.devices[i].eligibility.Log() ==
              Evidence.Replay(DeviceHistory(fleet.devices[i].spec, start + Heard(events)), fleet.devices[i].spec.policy)
    {
      assert fleet.DeviceStands(i, fleet.history);
      assert specs[i] == fleet.devices[i].spec;
    }
  }
}
