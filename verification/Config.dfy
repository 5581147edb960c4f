/** Validating the configuration file and lowering it to what the daemon runs on (crates/protocol/src/config.rs). */
module Config {
  import opened Prelude
  import opened Text
  import opened Addresses
  import opened Advertisements
  import opened Quorum
  import opened Presence
  import Evidence
  import EvidenceProperties
  import Numerals

  datatype DeviceEntry = DeviceEntry(
    id: string,
    profile: string,
    irkBase64: Option<string>,
    address: Option<string>,
    serviceUuid: Option<string>,
    namePrefix: Option<string>,
    thresholdDbm: Option<int>,
    minimumSamples: Option<nat>,
    sampleWindowMs: Option<nat>,
    freshnessMs: Option<nat>)

  datatype ConfigFile = ConfigFile(adapter: Option<string>, multiDeviceAuth: Option<string>, devices: seq<DeviceEntry>)

  datatype Settings = Settings(adapter: Option<string>, multiDeviceAuth: MultiDeviceAuth, devices: seq<DeviceSpec>)

  datatype Unusable = UnreadableAddress | UnreadableServiceUuid | BlankNamePrefix | NoCriteria

  datatype PolicyField = ThresholdDbm | MinimumSamples | SampleWindowMs | FreshnessMs

  datatype ConfigError =
    | NoDevices
    | IrkBase64(id: string)
    | IrkLength(id: string)
    | UnusableDevice(id: string, what: Unusable)
    | UnsupportedProfile(id: string, profile: string)
    | DuplicateDevice(id: string)
    | DuplicateIdentity(first: string, second: string, criterion: string)
    | UnknownRule(text: string)
    | RuleExceedsDeviceCount(required: nat, configured: nat)
    | PolicyOutOfRange(id: string, field: PolicyField, value: int, lowest: int, highest: int)

  /** The decoders and the cipher the source takes from other libraries. */
  datatype Decoders = Decoders(
    base64: string -> Option<seq<byte>>,
    uuid: string -> Option<Uuid>,
    cipher: Block -> (Block -> Block))

  // ---------------------------------------------------------------------
  // One device
  // ---------------------------------------------------------------------

  function Reversed(b: seq<byte>): (r: seq<byte>)
    ensures |r| == |b|
  {
    seq(|b|, i requires 0 <= i < |b| => b[|b| - 1 - i])
  }

  /** The key is the decoded bytes back to front: reversing it again gives them back. */
  lemma ReversedTwice(b: seq<byte>)
    ensures Reversed(Reversed(b)) == b
    ensures b != [] ==> Reversed(b)[0] == b[|b| - 1]
  {
  }

  function DecodeIrk(id: string, text: string, d: Decoders): Result<Block, ConfigError> {
    var raw := d.base64(Trim(text));
    if raw.None? then Err(IrkBase64(id))
    else if |raw.value| != 16 then Err(IrkLength(id))
    else Ok(Reversed(raw.value))
  }

  function IdentityOf(e: DeviceEntry, d: Decoders): Result<Identity, ConfigError> {
    if e.irkBase64.Some? && DecodeIrk(e.id, e.irkBase64.value, d).Err? then
      Err(DecodeIrk(e.id, e.irkBase64.value, d).error)
    else if e.address.Some? && AddressOf(e.address.value).None? then
      Err(UnusableDevice(e.id, UnreadableAddress))
    else if e.serviceUuid.Some? && d.uuid(e.serviceUuid.value).None? then
      Err(UnusableDevice(e.id, UnreadableServiceUuid))
    else if e.namePrefix.Some? && IsBlank(e.namePrefix.value) then
      Err(UnusableDevice(e.id, BlankNamePrefix))
    else
      var key := KeyOf(e, d);
      var identity := Identity(
                        if key.irk.Some? then Some(IrkMatcher(key.irk.value, d.cipher(key.irk.value))) else None,
                        key.address,
                        if e.serviceUuid.Some? then d.uuid(e.serviceUuid.value) else None,
                        e.namePrefix);
      if identity.IsEmpty() then
        Err(UnusableDevice(e.id, NoCriteria))
      else
        Ok(identity)
  }

  const DEFAULT_POLICY := Evidence.Policy(-75, 2, 3_000, 2_500)

  function RequestedPolicy(e: DeviceEntry): Evidence.Policy {
    Evidence.Policy(
      if e.thresholdDbm.Some? then e.thresholdDbm.value else DEFAULT_POLICY.thresholdDbm,
      if e.minimumSamples.Some? then e.minimumSamples.value else DEFAULT_POLICY.minimumSamples,
      if e.sampleWindowMs.Some? then e.sampleWindowMs.value else DEFAULT_POLICY.sampleWindowMs,
      if e.freshnessMs.Some? then e.freshnessMs.value else DEFAULT_POLICY.freshnessMs)
  }

  /** An entry that overrides nothing gets the documented defaults, and one that overrides everything gets
      what it asks for. */
  lemma PolicyReadings(e: DeviceEntry)
    ensures e.thresholdDbm.None? && e.minimumSamples.None? && e.sampleWindowMs.None? && e.freshnessMs.None? ==>
              PolicyOf(e) == Ok(Evidence.Policy(-75, 2, 3_000, 2_500))
    ensures e.thresholdDbm.Some? ==> RequestedPolicy(e).thresholdDbm == e.thresholdDbm.value
    ensures e.minimumSamples.Some? ==> RequestedPolicy(e).minimumSamples == e.minimumSamples.value
    ensures e.sampleWindowMs.Some? ==> RequestedPolicy(e).sampleWindowMs == e.sampleWindowMs.value
    ensures e.freshnessMs.Some? ==> RequestedPolicy(e).freshnessMs == e.freshnessMs.value
  {
  }

  function PolicyOf(e: DeviceEntry): Result<Evidence.Policy, ConfigError> {
    var p := RequestedPolicy(e);
    var maximumSamples := p.sampleWindowMs / Evidence.MIN_SAMPLE_SPACING_MS + 1;
    if !(Evidence.MIN_THRESHOLD_DBM <= p.thresholdDbm <= Evidence.MAX_THRESHOLD_DBM) then
      Err(PolicyOutOfRange(e.id, ThresholdDbm, p.thresholdDbm, Evidence.MIN_THRESHOLD_DBM, Evidence.MAX_THRESHOLD_DBM))
    else if p.minimumSamples == 0 then
      Err(PolicyOutOfRange(e.id, MinimumSamples, 0, 1, 255))
    else if !(1 <= p.sampleWindowMs <= Evidence.MAX_SAMPLE_WINDOW_MS) then
      Err(PolicyOutOfRange(e.id, SampleWindowMs, p.sampleWindowMs, 1, Evidence.MAX_SAMPLE_WINDOW_MS))
    else if !(1 <= p.freshnessMs <= Evidence.MAX_FRESHNESS_MS) then
      Err(PolicyOutOfRange(e.id, FreshnessMs, p.freshnessMs, 1, Evidence.MAX_FRESHNESS_MS))
    else if p.minimumSamples > maximumSamples then
      Err(PolicyOutOfRange(e.id, MinimumSamples, p.minimumSamples, 1, maximumSamples))
    else
      Ok(p)
  }

  function FieldOf(p: Evidence.Policy, field: PolicyField): int {
    match field
    case ThresholdDbm => p.thresholdDbm
    case MinimumSamples => p.minimumSamples
    case SampleWindowMs => p.sampleWindowMs
    case FreshnessMs => p.freshnessMs
  }

  /** A refused policy is refused for a field that is outside the range reported with it, the range being
      the documented one: for the samples, what the protocol can count, or else what the window can hold. */
  lemma PolicyErrorIsHonest(e: DeviceEntry)
    ensures PolicyOf(e).Err? ==>
              && PolicyOf(e).error.PolicyOutOfRange?
              && var r, p := PolicyOf(e).error, RequestedPolicy(e);
                 && r.id == e.id && r.value == FieldOf(p, r.field) && !(r.lowest <= r.value <= r.highest)
                 && match r.field
                    case ThresholdDbm => r.lowest == -127 && r.highest == 20
                    case MinimumSamples =>
                      r.lowest == 1 && r.highest == if p.minimumSamples == 0 then 255 else EvidenceProperties.MaximumSamples(p)
                    case SampleWindowMs => r.lowest == 1 && r.highest == 30_000
                    case FreshnessMs => r.lowest == 1 && r.highest == 10_000
  {
  }

  /** Of several fields out of range the first is reported, in the order threshold, no samples, window,
      freshness, too many samples. */
  lemma PolicyErrorIsFirst(e: DeviceEntry)
    ensures var r, p := PolicyOf(e), RequestedPolicy(e);
            r.Err? ==>
              && (r.error.field.ThresholdDbm? <==> !(-127 <= p.thresholdDbm <= 20))
              && (r.error.field.SampleWindowMs? ==> p.minimumSamples > 0)
              && (r.error.field.FreshnessMs? ==> p.minimumSamples > 0 && 1 <= p.sampleWindowMs <= 30_000)
              && (r.error.field.MinimumSamples? && p.minimumSamples > 0 ==>
                    1 <= p.sampleWindowMs <= 30_000 && 1 <= p.freshnessMs <= 10_000)
  {
  }

  /** A policy inside the evidence-lifetime and signal limits. */
  predicate WithinLimits(p: Evidence.Policy) {
    && -127 <= p.thresholdDbm <= 20
    && 1 <= p.minimumSamples
    && 1 <= p.sampleWindowMs <= 30_000
    && 1 <= p.freshnessMs <= 10_000
  }

  /** Validation keeps exactly the policies inside the limits that some run can satisfy. */
  lemma AcceptsExactlyTheFeasiblePolicies(e: DeviceEntry)
    ensures PolicyOf(e).Ok? <==> WithinLimits(RequestedPolicy(e)) && EvidenceProperties.Feasible(RequestedPolicy(e))
  {
    EvidenceProperties.BoundIsFeasibility(RequestedPolicy(e));
  }

  function ResolveEntry(e: DeviceEntry, d: Decoders): Result<DeviceSpec, ConfigError> {
    var identity := IdentityOf(e, d);
    if identity.Err? then Err(identity.error)
    else
      var profile := FindProfile(e.profile);
      if profile.None? then Err(UnsupportedProfile(e.id, e.profile))
      else
        var policy := PolicyOf(e);
        if policy.Err? then Err(policy.error)
        else Ok(DeviceSpec(e.id, identity.value, profile.value, policy.value))
  }

  /** Whether an entry resolves has nothing to do with its id: any text will do. */
  lemma AnyIdIsAccepted(e: DeviceEntry, id: string, d: Decoders)
    ensures ResolveEntry(e.(id := id), d).Ok? <==> ResolveEntry(e, d).Ok?
  {
    assert KeyOf(e.(id := id), d) == KeyOf(e, d);
  }

  // ---------------------------------------------------------------------
  // The rule
  // ---------------------------------------------------------------------

  function RuleOf(c: ConfigFile): Result<MultiDeviceAuth, ConfigError> {
    if c.multiDeviceAuth.None? then Ok(Any)
    else
      var text := c.multiDeviceAuth.value;
      if text == "any" then Ok(Any)
      else if text == "all" then Ok(All)
      else
        var count := StripPrefix(text, "at-least:");
        var n := if count.Some? then Numerals.ParseUnsigned(count.value, 255) else None;
        if n.Some? && n.value > 0 then Ok(AtLeast(n.value)) else Err(UnknownRule(text))
  }

  /** What every way of writing the rule means: nothing, a word, or a count from 1 to 255. */
  lemma RuleReadings(c: ConfigFile, n: nat)
    ensures c.multiDeviceAuth == None ==> RuleOf(c) == Ok(Any)
    ensures c.multiDeviceAuth == Some("any") ==> RuleOf(c) == Ok(Any)
    ensures c.multiDeviceAuth == Some("all") ==> RuleOf(c) == Ok(All)
    ensures c.multiDeviceAuth == Some("at-least:" + Numerals.Decimal(n)) ==>
              RuleOf(c) == if 1 <= n <= 255 then Ok(AtLeast(n)) else Err(UnknownRule(c.multiDeviceAuth.value))
  {
    Numerals.DecimalReads(n, 255);
    var text := "at-least:" + Numerals.Decimal(n);
    assert text[9..] == Numerals.Decimal(n) && text[2] == '-' && "any"[2] == 'y' && "all"[2] == 'l';
  }

  /** An accepted count is never outside 1 to 255, and a rule that is accepted is one of those texts or a
      count written with a plus sign or leading zeros. */
  lemma RuleIsCounted(c: ConfigFile)
    ensures RuleOf(c).Ok? && RuleOf(c).value.AtLeast? ==>
              && 1 <= RuleOf(c).value.n <= 255
              && c.multiDeviceAuth.Some? && "at-least:" <= c.multiDeviceAuth.value
    ensures RuleOf(c).Ok? && RuleOf(c).value.All? ==> c.multiDeviceAuth == Some("all")
    ensures RuleOf(c).Ok? && RuleOf(c).value.Any? ==> c.multiDeviceAuth == None || c.multiDeviceAuth == Some("any")
  {
  }

  // ---------------------------------------------------------------------
  // The whole file
  // ---------------------------------------------------------------------

  /** The parts of an entry that name one physical device. */
  datatype IdentityKey = IdentityKey(irk: Option<Block>, address: Option<Address>)

  function KeyOf(e: DeviceEntry, d: Decoders): IdentityKey {
    IdentityKey(
      if e.irkBase64.Some? && DecodeIrk(e.id, e.irkBase64.value, d).Ok? then Some(DecodeIrk(e.id, e.irkBase64.value, d).value) else None,
      if e.address.Some? then AddressOf(e.address.value) else None)
  }

  predicate SharesIrk(a: IdentityKey, b: IdentityKey) {
    a.irk.Some? && a.irk == b.irk
  }

  predicate SharesAddress(a: IdentityKey, b: IdentityKey) {
    a.address.Some? && a.address == b.address
  }

  ghost predicate SameIdBefore(c: ConfigFile, n: nat)
    requires n < |c.devices|
  {
    exists i | 0 <= i < n :: c.devices[i].id == c.devices[n].id
  }

  /** The two have the same key, or the same address. */
  predicate AreOneDevice(a: IdentityKey, b: IdentityKey) {
    || (a.irk.Some? && b.irk.Some? && a.irk.value == b.irk.value)
    || (a.address.Some? && b.address.Some? && a.address.value == b.address.value)
  }

  /** Entry `n` resolves, and neither repeats an earlier id nor is an earlier device. */
  ghost predicate UsableAt(c: ConfigFile, d: Decoders, n: nat)
    requires n < |c.devices|
  {
    && ResolveEntry(c.devices[n], d).Ok?
    && !SameIdBefore(c, n)
    && forall i | 0 <= i < n :: !AreOneDevice(KeyOf(c.devices[n], d), KeyOf(c.devices[i], d))
  }

  /** The first `n` entries are usable, and no two of them are one device. */
  ghost predicate UsableUpTo(c: ConfigFile, d: Decoders, n: nat)
    requires n <= |c.devices|
  {
    forall i | 0 <= i < n :: UsableAt(c, d, i)
  }

  /** Everything the file promises the daemon. */
  ghost predicate Acceptable(c: ConfigFile, d: Decoders) {
    && c.devices != []
    && UsableUpTo(c, d, |c.devices|)
    && RuleOf(c).Ok?
    && (RuleOf(c).value.AtLeast? ==> RuleOf(c).value.n <= |c.devices|)
  }

  ghost predicate IsResolution(c: ConfigFile, d: Decoders, s: Settings) {
    && Acceptable(c, d)
    && s.adapter == c.adapter
    && s.multiDeviceAuth == RuleOf(c).value
    && |s.devices| == |c.devices|
    && forall i | 0 <= i < |c.devices| :: ResolveEntry(c.devices[i], d) == Ok(s.devices[i])
  }

  /** What is wrong with entry `n`, given usable entries before it: a repeated id, else its own error, else
      the first earlier entry that is the same device, by key before address. */
  ghost predicate IsEntryDefect(c: ConfigFile, d: Decoders, n: nat, error: ConfigError)
    requires n < |c.devices|
  {
    var entry := c.devices[n];
    if SameIdBefore(c, n) then error == DuplicateDevice(entry.id)
    else if ResolveEntry(entry, d).Err? then error == ResolveEntry(entry, d).error
    else exists m | 0 <= m < n :: ClashReport(entry, KeyOf(entry, d), Seen(c, d, n), m, error)
  }

  /** The error is the file's first defect: no device, else the first unusable entry, else the rule. */
  ghost predicate IsFirstDefect(c: ConfigFile, d: Decoders, error: ConfigError) {
    || (c.devices == [] && error == NoDevices)
    || (exists n: nat :: n < |c.devices| && UsableUpTo(c, d, n) && IsEntryDefect(c, d, n, error))
    || (c.devices != [] && UsableUpTo(c, d, |c.devices|) && IsRuleDefect(c, error))
  }

  ghost predicate IsRuleDefect(c: ConfigFile, error: ConfigError) {
    match RuleOf(c)
    case Err(e) => error == e
    case Ok(AtLeast(n)) => n > |c.devices| && error == RuleExceedsDeviceCount(n, |c.devices|)
    case _ => false
  }

  /** The ids and keys of the first `n` entries. */
  function Seen(c: ConfigFile, d: Decoders, n: nat): seq<(string, IdentityKey)>
    requires n <= |c.devices|
  {
    seq(n, i requires 0 <= i < n => (c.devices[i].id, KeyOf(c.devices[i], d)))
  }

  /** `seen[m]` is the first entry that is the same device, and `error` says so. */
  ghost predicate ClashReport(entry: DeviceEntry, key: IdentityKey, seen: seq<(string, IdentityKey)>, m: nat, error: ConfigError) {
    && m < |seen|
    && AreOneDevice(key, seen[m].1)
    && error == DuplicateIdentity(seen[m].0, entry.id, if key.irk.Some? && key.irk == seen[m].1.irk then "irk_base64" else "address")
    && forall k | 0 <= k < m :: !AreOneDevice(key, seen[k].1)
  }

  /** The inner loop: the first entry seen that is the same device as `entry`. */
  method FindClash(entry: DeviceEntry, key: IdentityKey, seen: seq<(string, IdentityKey)>) returns (r: Option<ConfigError>)
    ensures r.None? ==> forall m | 0 <= m < |seen| :: !AreOneDevice(key, seen[m].1)
    ensures r.Some? ==> exists m | 0 <= m < |seen| :: ClashReport(entry, key, seen, m, r.value)
  {
    for m := 0 to |seen|
      invariant forall i | 0 <= i < m :: !AreOneDevice(key, seen[i].1)
    {
      var (other, otherKey) := seen[m];
      if SharesIrk(key, otherKey) {
        r := Some(DuplicateIdentity(other, entry.id, "irk_base64"));
        assert ClashReport(entry, key, seen, m, r.value);
        return;
      } else if SharesAddress(key, otherKey) {
        r := Some(DuplicateIdentity(other, entry.id, "address"));
        assert ClashReport(entry, key, seen, m, r.value);
        return;
      }
    }
    r := None;
  }

  lemma DefectIsUnusable(c: ConfigFile, d: Decoders, n: nat, error: ConfigError)
    requires n < |c.devices| && IsEntryDefect(c, d, n, error)
    ensures !UsableAt(c, d, n)
  {
    if !SameIdBefore(c, n) && ResolveEntry(c.devices[n], d).Ok? {
      var m :| 0 <= m < n && ClashReport(c.devices[n], KeyOf(c.devices[n], d), Seen(c, d, n), m, error);
      assert AreOneDevice(KeyOf(c.devices[n], d), KeyOf(c.devices[m], d));
    }
  }

  /** An entry with a defect makes the file unacceptable. */
  lemma EntryDefectCounts(c: ConfigFile, d: Decoders, n: nat, error: ConfigError)
    requires n < |c.devices| && UsableUpTo(c, d, n) && IsEntryDefect(c, d, n, error)
    ensures IsFirstDefect(c, d, error) && !Acceptable(c, d)
  {
    DefectIsUnusable(c, d, n, error);
  }

  /** What the loop holds after `n` entries. */
  ghost predicate Collected(c: ConfigFile, d: Decoders, n: nat, devices: seq<DeviceSpec>, seen: seq<(string, IdentityKey)>) {
    && n == |devices| == |seen| <= |c.devices|
    && UsableUpTo(c, d, n)
    && (forall i | 0 <= i < n :: ResolveEntry(c.devices[i], d) == Ok(devices[i]))
    && seen == Seen(c, d, n)
  }

  lemma CollectOne(c: ConfigFile, d: Decoders, n: nat, devices: seq<DeviceSpec>, seen: seq<(string, IdentityKey)>, spec: DeviceSpec)
    requires Collected(c, d, n, devices, seen) && n < |c.devices| && UsableAt(c, d, n)
    requires ResolveEntry(c.devices[n], d) == Ok(spec)
    ensures Collected(c, d, n + 1, devices + [spec], seen + [(c.devices[n].id, KeyOf(c.devices[n], d))])
  {
    SeenGrows(c, d, n);
  }

  lemma SeenGrows(c: ConfigFile, d: Decoders, n: nat)
    requires n < |c.devices|
    ensures Seen(c, d, n) + [(c.devices[n].id, KeyOf(c.devices[n], d))] == Seen(c, d, n + 1)
  {
  }

  lemma ResolvedId(e: DeviceEntry, d: Decoders)
    ensures ResolveEntry(e, d).Ok? ==> ResolveEntry(e, d).value.id == e.id
  {
  }

  lemma ResolvedKeepsId(c: ConfigFile, d: Decoders, n: nat, devices: seq<DeviceSpec>, seen: seq<(string, IdentityKey)>)
    requires Collected(c, d, n, devices, seen)
    ensures forall i | 0 <= i < n :: devices[i].id == c.devices[i].id == seen[i].0
  {
    forall i | 0 <= i < n
      ensures devices[i].id == c.devices[i].id
    {
      assert UsableAt(c, d, i);
      ResolvedId(c.devices[i], d);
    }
  }

  lemma CollectedAll(c: ConfigFile, d: Decoders, devices: seq<DeviceSpec>, seen: seq<(string, IdentityKey)>, s: Settings)
    requires Collected(c, d, |c.devices|, devices, seen) && c.devices != []
    ensures Acceptable(c, d) <==> RuleOf(c).Ok? && (RuleOf(c).value.AtLeast? ==> RuleOf(c).value.n <= |devices|)
    ensures forall error | IsRuleDefect(c, error) :: IsFirstDefect(c, d, error)
    ensures RuleOf(c).Ok? && Acceptable(c, d) && s == Settings(c.adapter, RuleOf(c).value, devices) ==> IsResolution(c, d, s)
  {
  }

  /** The whole file: accepted exactly when acceptable, and else refused for its first defect. */
  method Resolve(c: ConfigFile, d: Decoders) returns (r: Result<Settings, ConfigError>)
    ensures r.Ok? <==> Acceptable(c, d)
    ensures r.Ok? ==> IsResolution(c, d, r.value)
    ensures r.Err? ==> IsFirstDefect(c, d, r.error)
  {
    if |c.devices| == 0 {
      return Err(NoDevices);
    }
    var devices, seen := CollectDevices(c, d);
    if devices.Err? {
      return Err(devices.error);
    }
    var rule := RuleOf(c);
    ghost var settings := if rule.Ok? then Settings(c.adapter, rule.value, devices.value) else Settings(None, Any, []);
    CollectedAll(c, d, devices.value, seen, settings);
    if rule.Err? {
      return Err(rule.error);
    }
    if rule.value.AtLeast? && rule.value.n > |devices.value| {
      return Err(RuleExceedsDeviceCount(rule.value.n, |devices.value|));
    }
    r := Ok(Settings(c.adapter, rule.value, devices.value));
  }

  /** One turn of the loop: entry `n` against the devices collected before it. */
  method CheckEntry(c: ConfigFile, d: Decoders, n: nat, devices: seq<DeviceSpec>, seen: seq<(string, IdentityKey)>)
    returns (r: Result<DeviceSpec, ConfigError>)
    requires Collected(c, d, n, devices, seen) && n < |c.devices|
    ensures r.Ok? ==> UsableAt(c, d, n) && ResolveEntry(c.devices[n], d) == r
    ensures r.Err? ==> IsEntryDefect(c, d, n, r.error)
  {
    var entry := c.devices[n];
    ResolvedKeepsId(c, d, n, devices, seen);
    if exists i | 0 <= i < |devices| :: devices[i].id == entry.id {
      assert SameIdBefore(c, n);
      return Err(DuplicateDevice(entry.id));
    }
    assert !SameIdBefore(c, n);
    r := ResolveEntry(entry, d);
    if r.Err? {
      return;
    }
    var clash := FindClash(entry, KeyOf(entry, d), seen);
    if clash.Some? {
      return Err(clash.value);
    }
    assert forall i | 0 <= i < n :: seen[i].1 == KeyOf(c.devices[i], d);
  }

  /** The source's loop over the entries. */
  method CollectDevices(c: ConfigFile, d: Decoders) returns (r: Result<seq<DeviceSpec>, ConfigError>, seen: seq<(string, IdentityKey)>)
    ensures r.Ok? ==> Collected(c, d, |c.devices|, r.value, seen)
    ensures r.Err? ==> !Acceptable(c, d) && IsFirstDefect(c, d, r.error)
  {
    var devices: seq<DeviceSpec> := [];
    seen := [];
    for n := 0 to |c.devices|
      invariant Collected(c, d, n, devices, seen)
    {
      var spec := CheckEntry(c, d, n, devices, seen);
      if spec.Err? {
        EntryDefectCounts(c, d, n, spec.error);
        return Err(spec.error), seen;
      }
      CollectOne(c, d, n, devices, seen, spec.value);
      devices := devices + [spec.value];
      seen := seen + [(c.devices[n].id, KeyOf(c.devices[n], d))];
    }
    r := Ok(devices);
  }

  // ---------------------------------------------------------------------
  // What a resolved configuration guarantees
  // ---------------------------------------------------------------------

  ghost predicate AreDistinct(a: DeviceSpec, b: DeviceSpec) {
    && a.id != b.id
    && (a.identity.irk.Some? && b.identity.irk.Some? ==> a.identity.irk.value.key != b.identity.irk.value.key)
    && (a.identity.address.Some? && b.identity.address.Some? ==> a.identity.address != b.identity.address)
  }

  ghost predicate PairwiseDistinct(specs: seq<DeviceSpec>) {
    forall i, j | 0 <= i < j < |specs| :: AreDistinct(specs[i], specs[j])
  }

  /** The device has a criterion, and a policy inside the limits that some run satisfies. */
  ghost predicate Sound(spec: DeviceSpec) {
    !spec.identity.IsEmpty() && WithinLimits(spec.policy) && EvidenceProperties.Feasible(spec.policy)
  }

  /** Resolved devices have distinct ids, keys and addresses, a criterion each, and policies inside the limits. */
  lemma ResolvedFleetIsSound(c: ConfigFile, d: Decoders, s: Settings)
    requires IsResolution(c, d, s)
    ensures PairwiseDistinct(s.devices)
    ensures forall i | 0 <= i < |s.devices| :: Sound(s.devices[i])
    ensures 1 <= s.multiDeviceAuth.Required(|s.devices|) <= |s.devices|
  {
    forall i | 0 <= i < |s.devices|
      ensures Sound(s.devices[i])
    {
      EntrySound(c.devices[i], d, s.devices[i]);
    }
    forall i, j | 0 <= i < j < |s.devices|
      ensures AreDistinct(s.devices[i], s.devices[j])
    {
      assert UsableAt(c, d, j);
      EntryKeeps(c.devices[i], d, s.devices[i]);
      EntryKeeps(c.devices[j], d, s.devices[j]);
    }
  }

  /** What a resolved device is made of: its entry's id and policy, the profile of that name, and each
      criterion the entry gives and no other, decoded. */
  lemma EntryKeeps(e: DeviceEntry, d: Decoders, spec: DeviceSpec)
    requires ResolveEntry(e, d) == Ok(spec)
    ensures spec.id == e.id && spec.profile.Id() == e.profile && spec.policy == RequestedPolicy(e)
    ensures spec.identity.address == KeyOf(e, d).address
    ensures spec.identity.address == if e.address.Some? then AddressOf(e.address.value) else None
    ensures spec.identity.serviceUuid == if e.serviceUuid.Some? then d.uuid(e.serviceUuid.value) else None
    ensures spec.identity.namePrefix == e.namePrefix
    ensures spec.identity.irk.Some? <==> e.irkBase64.Some?
    ensures e.irkBase64.Some? ==>
              var raw, irk := d.base64(Trim(e.irkBase64.value)), spec.identity.irk.value;
              && raw.Some? && |raw.value| == 16
              && (forall k | 0 <= k < 16 :: irk.key[k] == raw.value[15 - k])
              && irk.encrypt == d.cipher(irk.key)
    ensures spec.identity.irk.Some? ==> KeyOf(e, d).irk == Some(spec.identity.irk.value.key)
  {
    ProfileNames(e.profile);
  }

  lemma EntrySound(e: DeviceEntry, d: Decoders, spec: DeviceSpec)
    requires ResolveEntry(e, d) == Ok(spec)
    ensures Sound(spec)
  {
    AcceptsExactlyTheFeasiblePolicies(e);
  }

  /** A name prefix that survives resolution is not blank, so it cannot match every named advertiser. */
  lemma ResolvedPrefixIsNotBlank(c: ConfigFile, d: Decoders, s: Settings, i: nat)
    requires IsResolution(c, d, s) && i < |s.devices|
    ensures s.devices[i].identity.namePrefix.Some? ==> !IsBlank(s.devices[i].identity.namePrefix.value)
  {
    ResolvedPrefix(c.devices[i], d);
  }

  lemma ResolvedPrefix(e: DeviceEntry, d: Decoders)
    ensures var r := ResolveEntry(e, d);
            r.Ok? && r.value.identity.namePrefix.Some? ==> !IsBlank(r.value.identity.namePrefix.value)
  {
  }

  /** When every device sets an address, an advertisement is folded into at most one device. */
  lemma AtMostOneDevicePerAdvertisement(c: ConfigFile, d: Decoders, s: Settings, ad: Advertisement, i: nat, j: nat)
    requires IsResolution(c, d, s)
    requires forall spec | spec in s.devices :: spec.identity.address.Some?
    requires i < |s.devices| && j < |s.devices|
    requires s.devices[i].identity.Matches(ad) && s.devices[j].identity.Matches(ad)
    ensures i == j
  {
    ResolvedFleetIsSound(c, d, s);
    assert s.devices[i] in s.devices && s.devices[j] in s.devices;
    assert s.devices[i].identity.address == Some(ad.address) == s.devices[j].identity.address;
    if i != j {
      DistinctAddresses(s.devices, i, j);
    }
  }

  lemma DistinctAddresses(specs: seq<DeviceSpec>, i: nat, j: nat)
    requires PairwiseDistinct(specs) && i < |specs| && j < |specs| && i != j
    requires specs[i].identity.address.Some? && specs[j].identity.address.Some?
    ensures specs[i].identity.address != specs[j].identity.address
  {
    if i < j {
      assert AreDistinct(specs[i], specs[j]);
    } else {
      assert AreDistinct(specs[j], specs[i]);
    }
  }
}
