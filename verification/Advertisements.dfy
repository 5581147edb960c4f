/**
 Advertisements, and how a device is recognised and read in one:
 crates/protocol/src/ble.rs, identity.rs, irk.rs and profile/.
 */
module Advertisements {
  import opened Prelude
  import opened Addresses
  import Continuity
  import Evidence

  type Uuid = nat

  /** One advertisement. A field that is None was not fetched or not advertised. */
  datatype Advertisement = Advertisement(
    address: Address,
    rssi: int,
    name: Option<string>,
    manufacturerData: Option<map<nat, seq<byte>>>,
    serviceData: Option<map<Uuid, seq<byte>>>,
    serviceUuids: Option<set<Uuid>>)
  {
    function Manufacturer(company: nat): Option<seq<byte>> {
      if manufacturerData.Some? && company in manufacturerData.value then Some(manufacturerData.value[company]) else None
    }
  }

  /** Which advertisement fields somebody inspects. */
  datatype Needs = Needs(manufacturerData: bool, serviceData: bool, serviceUuids: bool, name: bool)
  {
    function Union(other: Needs): Needs {
      Needs(manufacturerData || other.manufacturerData, serviceData || other.serviceData,
            serviceUuids || other.serviceUuids, name || other.name)
    }

    predicate Covers(other: Needs) {
      && (other.manufacturerData ==> manufacturerData)
      && (other.serviceData ==> serviceData)
      && (other.serviceUuids ==> serviceUuids)
      && (other.name ==> name)
    }
  }

  const NOTHING := Needs(false, false, false, false)

  /** The advertisement a scanner assembles when it fetches only what `needs` names. */
  function Fetched(ad: Advertisement, needs: Needs): Advertisement {
    Advertisement(
      ad.address, ad.rssi,
      if needs.name then ad.name else None,
      if needs.manufacturerData then ad.manufacturerData else None,
      if needs.serviceData then ad.serviceData else None,
      if needs.serviceUuids then ad.serviceUuids else None)
  }

  /** Fetching brings in exactly the fields asked for. */
  lemma FetchesWhatIsNeeded(ad: Advertisement, needs: Needs)
    ensures var got := Fetched(ad, needs);
            && got.address == ad.address && got.rssi == ad.rssi
            && (needs.name ==> got.name == ad.name) && (!needs.name ==> got.name.None?)
            && (needs.manufacturerData ==> got.manufacturerData == ad.manufacturerData)
            && (!needs.manufacturerData ==> got.manufacturerData.None?)
            && (needs.serviceData ==> got.serviceData == ad.serviceData) && (!needs.serviceData ==> got.serviceData.None?)
            && (needs.serviceUuids ==> got.serviceUuids == ad.serviceUuids) && (!needs.serviceUuids ==> got.serviceUuids.None?)
  {
  }

  // ---------------------------------------------------------------------
  // Identity
  // ---------------------------------------------------------------------

  type Block = b: seq<byte> | |b| == 16 witness [0, 0, 0, 0, 0, 0, 0, 0, 0, 0, 0, 0, 0, 0, 0, 0]

  /** A resolving key and the block cipher it keys; the cipher itself is not modelled. */
  datatype IrkMatcher = IrkMatcher(key: Block, encrypt: Block -> Block)
  {
    /** `address` is a resolvable private address whose hash part this key produces. */
    predicate Matches(address: Address) {
      && address[0] / 64 == 1
      && encrypt(seq(13, _ => 0) + address[..3])[13..] == address[3..]
    }
  }

  datatype AddressVerdict = Match | Reject | Undecided

  /** A conjunction of optional criteria. */
  datatype Identity = Identity(
    irk: Option<IrkMatcher>,
    address: Option<Address>,
    serviceUuid: Option<Uuid>,
    namePrefix: Option<string>)
  {
    predicate IsEmpty() {
      irk.None? && address.None? && serviceUuid.None? && namePrefix.None?
    }

    function NeededFields(): Needs {
      Needs(false, false, serviceUuid.Some?, namePrefix.Some?)
    }

    function Verdict(a: Address): AddressVerdict {
      if IsEmpty() then Reject
      else if irk.Some? && !irk.value.Matches(a) then Reject
      else if address.Some? && address.value != a then Reject
      else if serviceUuid.Some? || namePrefix.Some? then Undecided
      else Match
    }

    predicate Matches(ad: Advertisement) {
      match Verdict(ad.address)
      case Reject => false
      case Match => true
      case Undecided =>
        && (serviceUuid.Some? ==> ad.serviceUuids.Some? && serviceUuid.value in ad.serviceUuids.value)
        && (namePrefix.Some? ==> ad.name.Some? && namePrefix.value <= ad.name.value)
    }
  }

  /** The address a random part makes under a key: itself, then the hash of it. */
  function AddressFor(m: IrkMatcher, random: seq<byte>): Address
    requires |random| == 3
  {
    random + m.encrypt(seq(13, _ => 0) + random)[13..]
  }

  /** A key resolves exactly the addresses its random parts make, the parts being those whose two top bits
      are 01. */
  lemma ResolvesExactly(m: IrkMatcher, a: Address)
    ensures m.Matches(a) <==> exists random: seq<byte> :: |random| == 3 && 64 <= random[0] < 128 && a == AddressFor(m, random)
  {
    if m.Matches(a) {
      assert a == AddressFor(m, a[..3]);
    }
    if random: seq<byte> :| |random| == 3 && 64 <= random[0] < 128 && a == AddressFor(m, random) {
      assert a[..3] == random && a[3..] == m.encrypt(seq(13, _ => 0) + random)[13..];
    }
  }

  /** So it tells one address from all others with the same random part. */
  lemma OneAddressPerRandomPart(m: IrkMatcher, a: Address, b: Address)
    requires m.Matches(a) && m.Matches(b) && a[..3] == b[..3]
    ensures a == b
  {
    assert a == a[..3] + a[3..] && b == b[..3] + b[3..];
  }

  /** A device is recognised exactly when it has a criterion and every one it has holds: the key made the
      address, the address is the enrolled one, the service is advertised, and the name goes on from
      the prefix. */
  lemma RecognisedExactly(id: Identity, ad: Advertisement)
    ensures id.Matches(ad) <==>
            && id != Identity(None, None, None, None)
            && (id.irk.Some? ==>
                  exists random: seq<byte> ::
                    |random| == 3 && 64 <= random[0] < 128 && ad.address == AddressFor(id.irk.value, random))
            && (id.address.Some? ==> ad.address == id.address.value)
            && (id.serviceUuid.Some? ==> ad.serviceUuids.Some? && id.serviceUuid.value in ad.serviceUuids.value)
            && (id.namePrefix.Some? ==> ad.name.Some? && exists rest :: ad.name.value == id.namePrefix.value + rest)
  {
    if id.irk.Some? {
      ResolvesExactly(id.irk.value, ad.address);
    }
    if id.namePrefix.Some? && ad.name.Some? {
      var prefix, name := id.namePrefix.value, ad.name.value;
      assert prefix <= name ==> name == prefix + name[|prefix|..];
    }
  }

  /** Some payload makes an advertisement from this address match. */
  ghost predicate CanMatch(id: Identity, a: Address) {
    exists ad: Advertisement :: ad.address == a && id.Matches(ad)
  }

  /** Every payload makes an advertisement from this address match. */
  ghost predicate MustMatch(id: Identity, a: Address) {
    forall ad: Advertisement | ad.address == a :: id.Matches(ad)
  }

  function BareAdvertisement(a: Address): Advertisement {
    Advertisement(a, 0, None, None, None, None)
  }

  /** An advertisement from `a` whose payload says what `x` and `y` ask for. */
  function PayloadFor(a: Address, x: Identity, y: Identity): Advertisement {
    var px := if x.namePrefix.Some? then x.namePrefix.value else "";
    var py := if y.namePrefix.Some? then y.namePrefix.value else "";
    Advertisement(
      a, 0, Some(if |px| >= |py| then px else py), None, None,
      Some((if x.serviceUuid.Some? then {x.serviceUuid.value} else {}) + (if y.serviceUuid.Some? then {y.serviceUuid.value} else {})))
  }

  /** The address verdict is exact: Reject means no payload could match, Match that every payload
      does, and Undecided that the payload makes the difference. */
  lemma VerdictIsExact(id: Identity, a: Address)
    ensures id.Verdict(a) == Reject <==> !CanMatch(id, a)
    ensures id.Verdict(a) == Match <==> MustMatch(id, a)
  {
    if id.Verdict(a) != Reject {
      var ad := PayloadFor(a, id, id);
      assert ad.address == a && id.Matches(ad);
    }
    if MustMatch(id, a) {
      var bare := BareAdvertisement(a);
      assert bare.address == a && id.Matches(bare);
    }
  }

  predicate PrefixesAgree(x: Option<string>, y: Option<string>) {
    x.Some? && y.Some? ==> x.value <= y.value || y.value <= x.value
  }

  /** Exactly when one advertisement can be taken for two devices: some address suits both and
      their name prefixes do not contradict each other. */
  lemma OneAdvertisementTwoDevices(x: Identity, y: Identity)
    ensures (exists ad :: x.Matches(ad) && y.Matches(ad)) <==>
            (PrefixesAgree(x.namePrefix, y.namePrefix) && exists a :: x.Verdict(a) != Reject && y.Verdict(a) != Reject)
  {
    if ad :| x.Matches(ad) && y.Matches(ad) {
      assert x.Verdict(ad.address) != Reject && y.Verdict(ad.address) != Reject;
      if x.namePrefix.Some? && y.namePrefix.Some? {
        var px, py := x.namePrefix.value, y.namePrefix.value;
        assert px == ad.name.value[..|px|] && py == ad.name.value[..|py|];
      }
    }
    if PrefixesAgree(x.namePrefix, y.namePrefix) {
      if a :| x.Verdict(a) != Reject && y.Verdict(a) != Reject {
        var ad := PayloadFor(a, x, y);
        assert x.Matches(ad) && y.Matches(ad);
      }
    }
  }

  function FixedAddress(x: Identity, y: Identity): Option<Address> {
    if x.address.Some? then x.address else y.address
  }

  /** The identities name one address at most, and the keys they have resolve it. */
  predicate AddressesAgree(x: Identity, y: Identity) {
    && (x.address.Some? && y.address.Some? ==> x.address == y.address)
    && (FixedAddress(x, y).Some? && x.irk.Some? ==> x.irk.value.Matches(FixedAddress(x, y).value))
    && (FixedAddress(x, y).Some? && y.irk.Some? ==> y.irk.value.Matches(FixedAddress(x, y).value))
  }

  /** Every key has an address it resolves. */
  function ResolvableAddress(m: IrkMatcher): (a: Address)
    ensures m.Matches(a)
  {
    var a := AddressFor(m, [64, 0, 0]);
    assert a[..3] == [64, 0, 0] && a[3..] == m.encrypt(seq(13, _ => 0) + [64, 0, 0])[13..];
    a
  }

  function SharedAddress(x: Identity, y: Identity): Address {
    if FixedAddress(x, y).Some? then FixedAddress(x, y).value
    else if x.irk.Some? then ResolvableAddress(x.irk.value)
    else if y.irk.Some? then ResolvableAddress(y.irk.value)
    else [0, 0, 0, 0, 0, 0]
  }

  /** Unless both have a key and neither an address, whether some address suits both can be told from the
      criteria alone: the fixed addresses agree, and resolve under the keys. */
  lemma SharedAddressIsDecidable(x: Identity, y: Identity)
    requires x.irk.None? || y.irk.None? || FixedAddress(x, y).Some?
    ensures (exists a :: x.Verdict(a) != Reject && y.Verdict(a) != Reject) <==>
            !x.IsEmpty() && !y.IsEmpty() && AddressesAgree(x, y)
  {
    if !x.IsEmpty() && !y.IsEmpty() && AddressesAgree(x, y) {
      var a := SharedAddress(x, y);
      assert x.Verdict(a) != Reject && y.Verdict(a) != Reject;
    }
  }

  /** So of such a pair one advertisement is taken for both exactly when their fixed addresses agree and
      resolve under their keys, and their name prefixes do not contradict each other. */
  lemma OneAdvertisementTwoDevicesExactly(x: Identity, y: Identity)
    requires x.irk.None? || y.irk.None? || FixedAddress(x, y).Some?
    ensures (exists ad :: x.Matches(ad) && y.Matches(ad)) <==>
            !x.IsEmpty() && !y.IsEmpty() && AddressesAgree(x, y) && PrefixesAgree(x.namePrefix, y.namePrefix)
  {
    OneAdvertisementTwoDevices(x, y);
    SharedAddressIsDecidable(x, y);
  }

  // ---------------------------------------------------------------------
  // Profiles
  // ---------------------------------------------------------------------

  /** The registered device families. */
  datatype Profile = AppleContinuity | Presence
  {
    function Id(): string {
      match this
      case AppleContinuity => "apple-continuity"
      case Presence => "presence"
    }

    function NeededFields(): Needs {
      match this
      case AppleContinuity => NOTHING.(manufacturerData := true)
      case Presence => NOTHING
    }

    function Evaluate(ad: Advertisement): Evidence.Observation {
      match this
      case AppleContinuity => EvaluateContinuity(ad)
      case Presence => Evidence.Qualify
    }
  }

  function EvaluateContinuity(ad: Advertisement): Evidence.Observation {
    var payload := ad.Manufacturer(Continuity.COMPANY_ID);
    if payload.None? then Evidence.Ignore
    else
      match Continuity.Parse(payload.value)
      case Ok(info) => if info.watchLocked || !info.autoUnlockEnabled then Evidence.Revoke else Evidence.Qualify
      case Err(MissingNearbyInfo) => Evidence.Ignore
      case Err(_) => Evidence.Revoke
  }

  function FindProfile(id: string): Option<Profile> {
    if id == AppleContinuity.Id() then Some(AppleContinuity)
    else if id == Presence.Id() then Some(Presence)
    else None
  }

  /** What an advertisement of the company must carry to be read as `Qualify`: a complete run of
      entries with one Nearby Info, its flags byte with the top bit (auto-unlock) set and the third
      (locked) clear. */
  ghost predicate SaysUnlocked(ad: Advertisement, ts: seq<Continuity.Tlv>) {
    && ad.Manufacturer(Continuity.COMPANY_ID).Some?
    && Continuity.IsCompleteWith(ad.Manufacturer(Continuity.COMPANY_ID).value, ts)
    && var infos := Continuity.NearbyInfos(ts);
       && |infos| == 1 && |infos[0].payload| >= 3
       && infos[0].payload[1] >= 128
       && infos[0].payload[1] % 64 < 32
  }

  /** The company payload is absent, or is a complete run of entries without Nearby Info. */
  ghost predicate SaysNothing(ad: Advertisement) {
    var payload := ad.Manufacturer(Continuity.COMPANY_ID);
    payload.Some? ==> exists ts :: Continuity.IsCompleteWith(payload.value, ts) && Continuity.NearbyInfos(ts) == []
  }

  lemma UnlockedFlags(flags: byte)
    ensures var info := Continuity.InfoOf(flags);
            !info.watchLocked && info.autoUnlockEnabled <==> flags >= 128 && flags % 64 < 32
  {
    var high, low := flags / 64, flags % 64;
    assert flags / 32 == 2 * high + low / 32 && flags / 128 == high / 2;
  }

  /** How a Continuity advertisement is read; everything else revokes. */
  lemma ContinuityReading(ad: Advertisement)
    ensures AppleContinuity.Evaluate(ad) == Evidence.Qualify <==> exists ts :: SaysUnlocked(ad, ts)
    ensures AppleContinuity.Evaluate(ad) == Evidence.Ignore <==> SaysNothing(ad)
  {
    var payload := ad.Manufacturer(Continuity.COMPANY_ID);
    if payload.Some? {
      var parsed := Continuity.Parse(payload.value);
      Continuity.MissesExactly(payload.value);
      if parsed.Ok? {
        Continuity.ParsesExactly(payload.value, parsed.value);
        var ts :| Continuity.IsCompleteWith(payload.value, ts) && |Continuity.NearbyInfos(ts)| == 1
                  && |Continuity.NearbyInfos(ts)[0].payload| >= 3
                  && parsed.value == Continuity.InfoOf(Continuity.NearbyInfos(ts)[0].payload[1]);
        UnlockedFlags(Continuity.NearbyInfos(ts)[0].payload[1]);
        assert AppleContinuity.Evaluate(ad) == Evidence.Qualify ==> SaysUnlocked(ad, ts);
      }
      if ts :| SaysUnlocked(ad, ts) {
        UnlockedFlags(Continuity.NearbyInfos(ts)[0].payload[1]);
        Continuity.ParsesExactly(payload.value, Continuity.InfoOf(Continuity.NearbyInfos(ts)[0].payload[1]));
      }
    }
  }

  // ---------------------------------------------------------------------
  // Reading only declared fields
  // ---------------------------------------------------------------------

  /** What an identity that some address suits declares is exactly what can make a difference to it: its
      services, its name, and never the data fields. */
  lemma DeclaresWhatMatters(id: Identity, a: Address)
    requires id.Verdict(a) != Reject
    ensures id.NeededFields().serviceUuids <==>
            exists ad: Advertisement, uuids: Option<set<Uuid>> :: ad.address == a && id.Matches(ad) != id.Matches(ad.(serviceUuids := uuids))
    ensures id.NeededFields().name <==>
            exists ad: Advertisement, name: Option<string> :: ad.address == a && id.Matches(ad) != id.Matches(ad.(name := name))
    ensures !id.NeededFields().manufacturerData && !id.NeededFields().serviceData
  {
    var ad := PayloadFor(a, id, id);
    if id.serviceUuid.Some? {
      assert id.Matches(ad) != id.Matches(ad.(serviceUuids := None));
    }
    if id.namePrefix.Some? {
      assert id.Matches(ad) != id.Matches(ad.(name := None));
    }
  }

  /** The same for a profile: manufacturer data for the one that reads it, nothing for the other. */
  lemma ProfileDeclaresWhatMatters(profile: Profile)
    ensures profile.NeededFields().manufacturerData <==>
            exists ad: Advertisement, data: Option<map<nat, seq<byte>>> :: profile.Evaluate(ad) != profile.Evaluate(ad.(manufacturerData := data))
    ensures !profile.NeededFields().serviceData && !profile.NeededFields().serviceUuids && !profile.NeededFields().name
  {
    if profile.AppleContinuity? {
      var ad := BareAdvertisement([0, 0, 0, 0, 0, 0]);
      var data: Option<map<nat, seq<byte>>> := Some(map[Continuity.COMPANY_ID := [0]]);
      var truncated := ad.(manufacturerData := data);
      assert Continuity.Incomplete([0]) && truncated.Manufacturer(Continuity.COMPANY_ID) == Some([0]);
      assert profile.Evaluate(ad) == Evidence.Ignore && profile.Evaluate(truncated) == Evidence.Revoke;
    }
  }

  /** The registered names, and no others. */
  lemma ProfileNames(id: string)
    ensures FindProfile("apple-continuity") == Some(AppleContinuity) && FindProfile("presence") == Some(Presence)
    ensures FindProfile(id).Some? ==> id == "apple-continuity" || id == "presence"
    ensures FindProfile(id).Some? ==> FindProfile(id).value.Id() == id
  {
    assert "apple-continuity"[0] != "presence"[0];
  }

  /** Recognising and reading a device depend only on the fields it declares. */
  lemma ReadsOnlyDeclaredFields(id: Identity, profile: Profile, ad: Advertisement, needs: Needs)
    requires needs.Covers(id.NeededFields()) && needs.Covers(profile.NeededFields())
    ensures id.Matches(Fetched(ad, needs)) == id.Matches(ad)
    ensures profile.Evaluate(Fetched(ad, needs)) == profile.Evaluate(ad)
  {
    if profile.AppleContinuity? {
      assert Fetched(ad, needs).Manufacturer(Continuity.COMPANY_ID) == ad.Manufacturer(Continuity.COMPANY_ID);
    }
  }
}
