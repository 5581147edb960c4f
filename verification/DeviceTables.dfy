/** Writing an enrolled device's table into the configuration document (crates/cli/src/devices.rs). */
module DeviceTables {
  import opened Prelude
  import opened Text
  import opened Slugs
  import opened Config
  import opened DeviceIds
  import Addresses

  datatype Value = StringValue(text: string) | Integer(n: int) | OtherValue

  /** The keys a device table can hold: the ones this program writes or reads, and any other. */
  datatype Key =
    | Id | Profile | Kind
    | IrkBase64 | Address | ServiceUuid | NamePrefix
    | ThresholdDbm | MinimumSamples | SampleWindowMs | FreshnessMs
    | Foreign(name: string)

  type Table = map<Key, Value>

  /** The document's `device` key. */
  datatype DeviceItem = Absent | EmptyInline | Tables(tables: seq<Table>) | WrongShape

  datatype CriteriaError = NoCriterion | InvalidIrkBase64 | InvalidIrkLength | InvalidAddress | InvalidServiceUuid

  datatype EditError = UnusableCriteria(why: CriteriaError) | WrongDeviceShape | NoSuchDevice

  datatype Criteria = Criteria(irkBase64: Option<string>, address: Option<string>, serviceUuid: Option<string>, namePrefix: Option<string>)

  /** What is wrong with criteria before anything is written, if anything is. */
  function Defect(c: Criteria, d: Decoders): Option<CriteriaError> {
    if c == Criteria(None, None, None, None) then Some(NoCriterion)
    else if c.irkBase64.Some? && d.base64(Trim(c.irkBase64.value)).None? then Some(InvalidIrkBase64)
    else if c.irkBase64.Some? && |d.base64(Trim(c.irkBase64.value)).value| != 16 then Some(InvalidIrkLength)
    else if c.address.Some? && Addresses.AddressOf(c.address.value).None? then Some(InvalidAddress)
    else if c.serviceUuid.Some? && d.uuid(c.serviceUuid.value).None? then Some(InvalidServiceUuid)
    else None
  }

  function WithCriteria(e: DeviceEntry, c: Criteria): DeviceEntry {
    e.(irkBase64 := c.irkBase64, address := c.address, serviceUuid := c.serviceUuid, namePrefix := c.namePrefix)
  }

  /** Criteria accepted for writing are those configuration resolves, but for blank name prefixes, which
      only the validation of the finished file turns away. */
  lemma AcceptedCriteriaResolve(e: DeviceEntry, c: Criteria, d: Decoders)
    ensures IdentityOf(WithCriteria(e, c), d).Ok? <==>
            Defect(c, d).None? && !(c.namePrefix.Some? && IsBlank(c.namePrefix.value))
  {
    var named := WithCriteria(e, c);
    assert named.irkBase64 == c.irkBase64 && named.address == c.address;
    assert named.serviceUuid == c.serviceUuid && named.namePrefix == c.namePrefix;
    if c.irkBase64.Some? {
      IrkDefect(named.id, c.irkBase64.value, d);
    }
    ResolvesWhen(named, d);
  }

  lemma IrkDefect(id: string, text: string, d: Decoders)
    ensures DecodeIrk(id, text, d).Ok? <==> d.base64(Trim(text)).Some? && |d.base64(Trim(text)).value| == 16
  {
  }

  /** An entry's criteria resolve when there is one and each decodes. */
  lemma ResolvesWhen(e: DeviceEntry, d: Decoders)
    ensures IdentityOf(e, d).Ok? <==>
            && !(e.irkBase64.Some? && DecodeIrk(e.id, e.irkBase64.value, d).Err?)
            && !(e.address.Some? && Addresses.AddressOf(e.address.value).None?)
            && !(e.serviceUuid.Some? && d.uuid(e.serviceUuid.value).None?)
            && !(e.namePrefix.Some? && IsBlank(e.namePrefix.value))
            && (e.irkBase64.Some? || e.address.Some? || e.serviceUuid.Some? || e.namePrefix.Some?)
  {
  }

  datatype Overrides = Overrides(thresholdDbm: Option<int>, minimumSamples: Option<nat>, freshnessMs: Option<nat>)

  predicate IsCriterion(key: Key) {
    key.IrkBase64? || key.Address? || key.ServiceUuid? || key.NamePrefix?
  }

  predicate IsPolicy(key: Key) {
    key.ThresholdDbm? || key.MinimumSamples? || key.FreshnessMs?
  }

  /** The keys enrollment owns. */
  predicate IsOwned(key: Key) {
    key.Profile? || key.Kind? || IsCriterion(key) || IsPolicy(key)
  }

  predicate HasId(t: Table, id: string) {
    Key.Id in t && t[Key.Id] == StringValue(id)
  }

  function SetText(t: Table, key: Key, value: Option<string>): Table {
    if value.Some? then t[key := StringValue(value.value)] else t
  }

  function SetInteger(t: Table, key: Key, value: Option<int>): Table {
    if value.Some? then t[key := Integer(value.value)] else t
  }

  const MAX_I64: int := 0x7FFF_FFFF_FFFF_FFFF

  function Identified(t: Table, c: Criteria): Table {
    SetText(SetText(SetText(SetText(t, Key.IrkBase64, c.irkBase64), Key.Address, c.address),
                    Key.ServiceUuid, c.serviceUuid), Key.NamePrefix, c.namePrefix)
  }

  function Clamped(n: Option<nat>): Option<int> {
    if n.Some? then Some(if n.value > MAX_I64 then MAX_I64 else n.value) else None
  }

  function Overridden(t: Table, o: Overrides): Table {
    SetInteger(SetInteger(SetInteger(t, Key.ThresholdDbm, o.thresholdDbm), Key.MinimumSamples, o.minimumSamples),
               Key.FreshnessMs, Clamped(o.freshnessMs))
  }

  /** Without the old settings. */
  function Cleared(t: Table): Table {
    map key | key in t && !key.Kind? && !IsCriterion(key) && !IsPolicy(key) :: t[key]
  }

  /** What `apply_device` makes of the table carrying the id. */
  function Rewritten(t: Table, profile: string, c: Criteria, o: Overrides): Table {
    Overridden(Identified(Cleared(t[Key.Profile := StringValue(profile)]), c), o)
  }

  /** The table a first enrollment writes. */
  function FreshTable(id: string, profile: string, c: Criteria, o: Overrides): Table {
    Rewritten(map[Key.Id := StringValue(id)], profile, c, o)
  }

  function TablesOf(item: DeviceItem): Option<seq<Table>> {
    match item
    case Tables(tables) => Some(tables)
    case WrongShape => None
    case _ => Some([])
  }

  /** The position of the first table carrying the id. */
  function PositionOf(tables: seq<Table>, id: string): (r: Option<nat>)
    ensures r.Some? ==> r.value < |tables| && HasId(tables[r.value], id) && forall j | 0 <= j < r.value :: !HasId(tables[j], id)
    ensures r.None? ==> forall j | 0 <= j < |tables| :: !HasId(tables[j], id)
  {
    if tables == [] then None
    else if HasId(tables[0], id) then Some(0)
    else
      var rest := PositionOf(tables[1..], id);
      if rest.Some? then Some(rest.value + 1) else None
  }

  function Applied(tables: seq<Table>, id: string, profile: string, c: Criteria, o: Overrides): seq<Table> {
    var at := PositionOf(tables, id);
    if at.Some? then tables[at.value := Rewritten(tables[at.value], profile, c, o)]
    else tables + [FreshTable(id, profile, c, o)]
  }

  function Without(tables: seq<Table>, id: string): seq<Table> {
    if tables == [] then []
    else
      var front, last := Without(tables[..|tables| - 1], id), tables[|tables| - 1];
      if HasId(last, id) then front else front + [last]
  }

  /** The configuration document being edited. */
  class Document {
    var device: DeviceItem
    /** Everything else in the file, which no edit here touches. */
    var others: map<string, Value>

    /** The `[[device]]` array, an empty inline one replaced, a missing one created. */
    method DeviceArray() returns (r: Result<seq<Table>, EditError>)
      modifies this`device
      ensures TablesOf(old(device)).Some? ==> r == Ok(TablesOf(old(device)).value) && device == Tables(r.value)
      ensures TablesOf(old(device)).None? ==> r == Err(WrongDeviceShape) && device == old(device)
    {
      if device.EmptyInline? {
        device := Absent;
      }
      if device.Absent? {
        device := Tables([]);
      }
      if !device.Tables? {
        return Err(WrongDeviceShape);
      }
      r := Ok(device.tables);
    }

    /** The index of the table with this id, appending one if absent. */
    method Upsert(id: string) returns (r: Result<nat, EditError>)
      modifies this`device
      ensures r.Err? <==> TablesOf(old(device)).None?
      ensures r.Err? ==> device == old(device) && r.error == WrongDeviceShape
      ensures r.Ok? ==>
                var tables, at := TablesOf(old(device)).value, PositionOf(TablesOf(old(device)).value, id);
                if at.Some? then device == Tables(tables) && r.value == at.value
                else device == Tables(tables + [map[Key.Id := StringValue(id)]]) && r.value == |tables|
    {
      var tables := DeviceArray();
      if tables.Err? {
        return Err(tables.error);
      }
      var existing := PositionOf(tables.value, id);
      if existing.Some? {
        return Ok(existing.value);
      }
      device := Tables(tables.value + [map[Key.Id := StringValue(id)]]);
      r := Ok(|tables.value|);
    }

    /** Writes one device; an error leaves the document as it was. */
    method ApplyDevice(id: string, profile: string, c: Criteria, o: Overrides, d: Decoders) returns (r: Result<(), EditError>)
      modifies this`device
      ensures r == if Defect(c, d).Some? then Err(UnusableCriteria(Defect(c, d).value))
                   else if TablesOf(old(device)).None? then Err(WrongDeviceShape)
                   else Ok(())
      ensures r.Ok? ==> device == Tables(Applied(TablesOf(old(device)).value, id, profile, c, o))
      ensures r.Err? ==> device == old(device)
    {
      var defect := Defect(c, d);
      if defect.Some? {
        return Err(UnusableCriteria(defect.value));
      }
      var index := Upsert(id);
      if index.Err? {
        return Err(index.error);
      }
      var table := device.tables[index.value];
      device := Tables(device.tables[index.value := Rewritten(table, profile, c, o)]);
      r := Ok(());
    }

    /** Removes every table with this id. */
    method RemoveDevice(id: string) returns (r: Result<(), EditError>)
      modifies this`device
      ensures r.Ok? ==> TablesOf(old(device)).Some? && device == Tables(Without(TablesOf(old(device)).value, id))
      ensures r.Ok? <==> TablesOf(old(device)).Some? && PositionOf(TablesOf(old(device)).value, id).Some?
      ensures r.Err? ==> r.error == if TablesOf(old(device)).None? then WrongDeviceShape else NoSuchDevice
    {
      if device.Absent? {
        return Err(NoSuchDevice);
      }
      var tables := DeviceArray();
      if tables.Err? {
        return Err(tables.error);
      }
      var kept := Without(tables.value, id);
      WithoutLength(tables.value, id);
      if |kept| == |tables.value| {
        return Err(NoSuchDevice);
      }
      device := Tables(kept);
      r := Ok(());
    }
  }

  lemma {:induction false} WithoutLength(tables: seq<Table>, id: string)
    ensures |Without(tables, id)| <= |tables|
    ensures |Without(tables, id)| == |tables| <==> PositionOf(tables, id).None?
    ensures PositionOf(tables, id).None? ==> Without(tables, id) == tables
  {
    if tables != [] {
      var front, last := tables[..|tables| - 1], tables[|tables| - 1];
      WithoutLength(front, id);
      assert tables == front + [last];
      if PositionOf(front, id).Some? {
        assert HasId(tables[PositionOf(front, id).value], id);
      }
    }
  }

  lemma WithoutAppended(tables: seq<Table>, id: string, t: Table)
    requires PositionOf(tables, id).None? && HasId(t, id)
    ensures Without(tables + [t], id) == tables
  {
    assert (tables + [t])[..|tables|] == tables;
    WithoutLength(tables, id);
  }

  lemma SetTextOver(u: Table, v: Table, key: Key, value: Option<string>)
    ensures SetText(u + v, key, value) == u + SetText(v, key, value)
  {
  }

  lemma SetIntegerOver(u: Table, v: Table, key: Key, value: Option<int>)
    ensures SetInteger(u + v, key, value) == u + SetInteger(v, key, value)
  {
  }

  /** What an enrollment writes, whatever table it writes it to. */
  function Written(profile: string, c: Criteria, o: Overrides): Table {
    Overridden(Identified(map[Key.Profile := StringValue(profile)], c), o)
  }

  /** What an enrollment leaves of a table. */
  function Rest(t: Table): Table {
    map key | key in t && !IsOwned(key) :: t[key]
  }

  lemma RewrittenSplits(t: Table, profile: string, c: Criteria, o: Overrides)
    ensures Rewritten(t, profile, c, o) == Rest(t) + Written(profile, c, o)
  {
    var u, v0 := Rest(t), map[Key.Profile := StringValue(profile)];
    assert Cleared(t[Key.Profile := StringValue(profile)]) == u + v0;
    SetTextOver(u, v0, Key.IrkBase64, c.irkBase64);
    var v1 := SetText(v0, Key.IrkBase64, c.irkBase64);
    SetTextOver(u, v1, Key.Address, c.address);
    var v2 := SetText(v1, Key.Address, c.address);
    SetTextOver(u, v2, Key.ServiceUuid, c.serviceUuid);
    var v3 := SetText(v2, Key.ServiceUuid, c.serviceUuid);
    SetTextOver(u, v3, Key.NamePrefix, c.namePrefix);
    var v4 := SetText(v3, Key.NamePrefix, c.namePrefix);
    SetIntegerOver(u, v4, Key.ThresholdDbm, o.thresholdDbm);
    var v5 := SetInteger(v4, Key.ThresholdDbm, o.thresholdDbm);
    SetIntegerOver(u, v5, Key.MinimumSamples, o.minimumSamples);
    SetIntegerOver(u, SetInteger(v5, Key.MinimumSamples, o.minimumSamples), Key.FreshnessMs, Clamped(o.freshnessMs));
  }

  lemma RewrittenKeepsOthers(t: Table, profile: string, c: Criteria, o: Overrides)
    ensures forall key | !IsOwned(key) :: (key in Rewritten(t, profile, c, o) <==> key in t)
                                            && (key in t ==> Rewritten(t, profile, c, o)[key] == t[key])
  {
    RewrittenSplits(t, profile, c, o);
  }

  lemma RewrittenKeepsId(t: Table, id: string, profile: string, c: Criteria, o: Overrides)
    requires HasId(t, id)
    ensures HasId(Rewritten(t, profile, c, o), id)
  {
    RewrittenKeepsOthers(t, profile, c, o);
  }

  /** Writing a device touches one table: a new one at the end for a fresh id, else the first that
      carries the id, and in it only the keys enrollment owns. Removing a fresh device undoes adding it. */
  lemma ApplyTouchesOneTable(tables: seq<Table>, id: string, profile: string, c: Criteria, o: Overrides)
    ensures var after := Applied(tables, id, profile, c, o);
            var at := PositionOf(tables, id);
            && (at.None? ==> after == tables + [FreshTable(id, profile, c, o)] && Without(after, id) == tables)
            && (at.Some? ==>
                  && |after| == |tables|
                  && HasId(after[at.value], id)
                  && forall i | 0 <= i < |tables| && i != at.value :: after[i] == tables[i])
  {
    var at := PositionOf(tables, id);
    if at.Some? {
      RewrittenKeepsId(tables[at.value], id, profile, c, o);
    } else {
      RewrittenKeepsId(map[Key.Id := StringValue(id)], id, profile, c, o);
      WithoutAppended(tables, id, FreshTable(id, profile, c, o));
    }
  }

  /** Re-enrolling is documented as a full replacement. It is one exactly when the old table holds
      nothing beyond its id and the owned keys. */
  lemma ReplacementIsFullUnlessForeignKeys(t: Table, id: string, profile: string, c: Criteria, o: Overrides)
    requires HasId(t, id)
    ensures Rewritten(t, profile, c, o) == FreshTable(id, profile, c, o) <==> forall key | key in t :: key == Key.Id || IsOwned(key)
  {
    var bare := map[Key.Id := StringValue(id)];
    RewrittenSplits(t, profile, c, o);
    RewrittenSplits(bare, profile, c, o);
    var a, b := Rewritten(t, profile, c, o), FreshTable(id, profile, c, o);
    if forall key | key in t :: key == Key.Id || IsOwned(key) {
      assert Rest(t) == Rest(bare);
    } else {
      var key :| key in t && key != Key.Id && !IsOwned(key);
      assert key in a && key !in b;
    }
  }

  function ValueAt(t: Table, key: Key): Option<Value> {
    if key in t then Some(t[key]) else None
  }

  function AsText(text: Option<string>): Option<Value> {
    if text.Some? then Some(StringValue(text.value)) else None
  }

  function AsInteger(n: Option<int>): Option<Value> {
    if n.Some? then Some(Integer(n.value)) else None
  }

  lemma NoPolicyYet(t: Table, c: Criteria)
    ensures forall key | IsCriterion(key) :: key !in Cleared(t)
    ensures forall key | IsPolicy(key) :: key !in Identified(Cleared(t), c)
  {
    CriteriaWritten(Cleared(t), c);
    forall key | IsPolicy(key)
      ensures key !in Identified(Cleared(t), c)
    {
      assert ValueAt(Identified(Cleared(t), c), key) == ValueAt(Cleared(t), key);
    }
  }

  /** A re-enrolled device is recognised by the new criteria, and by no leftover of the old ones. */
  lemma NoStaleCriterion(t: Table, profile: string, c: Criteria, o: Overrides)
    ensures var after := Rewritten(t, profile, c, o);
            && ValueAt(after, Key.IrkBase64) == AsText(c.irkBase64)
            && ValueAt(after, Key.Address) == AsText(c.address)
            && ValueAt(after, Key.ServiceUuid) == AsText(c.serviceUuid)
            && ValueAt(after, Key.NamePrefix) == AsText(c.namePrefix)
            && ValueAt(after, Key.Profile) == Some(StringValue(profile))
            && ValueAt(after, Key.Kind) == None
  {
    var bare := Cleared(t[Key.Profile := StringValue(profile)]);
    NoPolicyYet(t[Key.Profile := StringValue(profile)], c);
    CriteriaWritten(bare, c);
    OverridesWritten(Identified(bare, c), o);
    assert ValueAt(bare, Key.Kind) == None && ValueAt(bare, Key.Profile) == Some(StringValue(profile));
  }

  /** And judged by the new overrides, or by the defaults, and by none of the old ones. */
  lemma NoStaleOverride(t: Table, profile: string, c: Criteria, o: Overrides)
    ensures var after := Rewritten(t, profile, c, o);
            && ValueAt(after, Key.ThresholdDbm) == AsInteger(o.thresholdDbm)
            && ValueAt(after, Key.MinimumSamples) == AsInteger(o.minimumSamples)
            && ValueAt(after, Key.FreshnessMs) == AsInteger(Clamped(o.freshnessMs))
  {
    NoPolicyYet(t[Key.Profile := StringValue(profile)], c);
    OverridesWritten(Identified(Cleared(t[Key.Profile := StringValue(profile)]), c), o);
  }

  lemma CriteriaWritten(t: Table, c: Criteria)
    requires forall key | IsCriterion(key) :: key !in t
    ensures var r := Identified(t, c);
            && ValueAt(r, Key.IrkBase64) == AsText(c.irkBase64)
            && ValueAt(r, Key.Address) == AsText(c.address)
            && ValueAt(r, Key.ServiceUuid) == AsText(c.serviceUuid)
            && ValueAt(r, Key.NamePrefix) == AsText(c.namePrefix)
            && forall key | !IsCriterion(key) :: ValueAt(r, key) == ValueAt(t, key)
  {
    var t1 := SetText(t, Key.IrkBase64, c.irkBase64);
    var t2 := SetText(t1, Key.Address, c.address);
    var t3 := SetText(t2, Key.ServiceUuid, c.serviceUuid);
    SetTextAt(t, Key.IrkBase64, c.irkBase64);
    SetTextAt(t1, Key.Address, c.address);
    SetTextAt(t2, Key.ServiceUuid, c.serviceUuid);
    SetTextAt(t3, Key.NamePrefix, c.namePrefix);
  }

  lemma OverridesWritten(t: Table, o: Overrides)
    requires forall key | IsPolicy(key) :: key !in t
    ensures var r := Overridden(t, o);
            && ValueAt(r, Key.ThresholdDbm) == AsInteger(o.thresholdDbm)
            && ValueAt(r, Key.MinimumSamples) == AsInteger(o.minimumSamples)
            && ValueAt(r, Key.FreshnessMs) == AsInteger(Clamped(o.freshnessMs))
            && forall key | !IsPolicy(key) :: ValueAt(r, key) == ValueAt(t, key)
  {
    var t1 := SetInteger(t, Key.ThresholdDbm, o.thresholdDbm);
    var t2 := SetInteger(t1, Key.MinimumSamples, o.minimumSamples);
    SetIntegerAt(t, Key.ThresholdDbm, o.thresholdDbm);
    SetIntegerAt(t1, Key.MinimumSamples, o.minimumSamples);
    SetIntegerAt(t2, Key.FreshnessMs, Clamped(o.freshnessMs));
  }

  lemma SetTextAt(t: Table, key: Key, value: Option<string>)
    ensures key !in t ==> ValueAt(SetText(t, key, value), key) == AsText(value)
    ensures forall k | k != key :: ValueAt(SetText(t, key, value), k) == ValueAt(t, k)
  {
  }

  lemma SetIntegerAt(t: Table, key: Key, value: Option<int>)
    ensures key !in t ==> ValueAt(SetInteger(t, key, value), key) == AsInteger(value)
    ensures forall k | k != key :: ValueAt(SetInteger(t, key, value), k) == ValueAt(t, k)
  {
  }

  // ---------------------------------------------------------------------
  // Deriving an id and writing it are two readings of the file
  // ---------------------------------------------------------------------

  /** The keys a device entry has. */
  predicate IsKnown(key: Key) {
    !key.Kind? && !key.Foreign?
  }

  predicate TextOrAbsent(t: Table, key: Key) {
    key in t ==> t[key].StringValue?
  }

  predicate IntegerOrAbsent(t: Table, key: Key, lowest: int, highest: int) {
    key in t ==> t[key].Integer? && lowest <= t[key].n <= highest
  }

  predicate HasTexts(t: Table) {
    && TextOrAbsent(t, Key.Id) && TextOrAbsent(t, Key.Profile)
    && TextOrAbsent(t, Key.IrkBase64) && TextOrAbsent(t, Key.Address)
    && TextOrAbsent(t, Key.ServiceUuid) && TextOrAbsent(t, Key.NamePrefix)
  }

  /** The table reads as a device entry: no unknown key, the required ones, every value of its type. */
  predicate TableReads(t: Table) {
    && (forall key | key in t :: IsKnown(key))
    && Key.Id in t && Key.Profile in t
    && HasTexts(t)
    && IntegerOrAbsent(t, Key.ThresholdDbm, -32_768, 32_767)
    && IntegerOrAbsent(t, Key.MinimumSamples, 0, 255)
    && IntegerOrAbsent(t, Key.SampleWindowMs, 0, MAX_I64)
    && IntegerOrAbsent(t, Key.FreshnessMs, 0, MAX_I64)
  }

  function TextAt(t: Table, key: Key): Option<string> {
    if key in t && t[key].StringValue? then Some(t[key].text) else None
  }

  function IntegerAt(t: Table, key: Key): Option<int> {
    if key in t && t[key].Integer? then Some(t[key].n) else None
  }

  function NaturalAt(t: Table, key: Key): Option<nat> {
    var n := IntegerAt(t, key);
    if n.Some? && n.value >= 0 then Some(n.value) else None
  }

  function EntryOf(t: Table): DeviceEntry
    requires TableReads(t)
  {
    DeviceEntry(t[Key.Id].text, t[Key.Profile].text,
                TextAt(t, Key.IrkBase64), TextAt(t, Key.Address), TextAt(t, Key.ServiceUuid), TextAt(t, Key.NamePrefix),
                IntegerAt(t, Key.ThresholdDbm), NaturalAt(t, Key.MinimumSamples),
                NaturalAt(t, Key.SampleWindowMs), NaturalAt(t, Key.FreshnessMs))
  }

  /** The value a typed entry has under a key. */
  function FieldValue(e: DeviceEntry, key: Key): Option<Value> {
    match key
    case Id => Some(StringValue(e.id))
    case Profile => Some(StringValue(e.profile))
    case IrkBase64 => AsText(e.irkBase64)
    case Address => AsText(e.address)
    case ServiceUuid => AsText(e.serviceUuid)
    case NamePrefix => AsText(e.namePrefix)
    case ThresholdDbm => AsInteger(e.thresholdDbm)
    case MinimumSamples => AsInteger(e.minimumSamples)
    case SampleWindowMs => AsInteger(e.sampleWindowMs)
    case FreshnessMs => AsInteger(e.freshnessMs)
    case Kind => None
    case Foreign(_) => None
  }

  /** The table holds what the entry says, under those keys and no others. */
  ghost predicate StandsFor(t: Table, e: DeviceEntry) {
    forall key: Key :: ValueAt(t, key) == FieldValue(e, key)
  }

  /** The numbers of an entry fit their types: a signed 16-bit threshold, an unsigned 8-bit count, and
      durations as large as a document's integers. */
  predicate IsTyped(e: DeviceEntry) {
    && (e.thresholdDbm.Some? ==> -32_768 <= e.thresholdDbm.value <= 32_767)
    && (e.minimumSamples.Some? ==> e.minimumSamples.value <= 255)
    && (e.sampleWindowMs.Some? ==> e.sampleWindowMs.value <= 9_223_372_036_854_775_807)
    && (e.freshnessMs.Some? ==> e.freshnessMs.value <= 9_223_372_036_854_775_807)
  }

  lemma ReadTableStands(t: Table)
    requires TableReads(t)
    ensures IsTyped(EntryOf(t)) && StandsFor(t, EntryOf(t))
  {
    var e := EntryOf(t);
    forall key: Key
      ensures ValueAt(t, key) == FieldValue(e, key)
    {
      assert key in t ==> IsKnown(key);
      match key {
        case ThresholdDbm =>
        case MinimumSamples =>
        case SampleWindowMs =>
        case FreshnessMs =>
        case _ =>
      }
    }
  }

  lemma StandingTexts(t: Table, e: DeviceEntry)
    requires StandsFor(t, e)
    ensures Key.Id in t && Key.Profile in t && HasTexts(t)
    ensures t[Key.Id] == StringValue(e.id) && t[Key.Profile] == StringValue(e.profile)
    ensures TextAt(t, Key.IrkBase64) == e.irkBase64 && TextAt(t, Key.Address) == e.address
    ensures TextAt(t, Key.ServiceUuid) == e.serviceUuid && TextAt(t, Key.NamePrefix) == e.namePrefix
  {
    assert ValueAt(t, Key.Id) == FieldValue(e, Key.Id) && ValueAt(t, Key.Profile) == FieldValue(e, Key.Profile);
    assert ValueAt(t, Key.IrkBase64) == FieldValue(e, Key.IrkBase64) && ValueAt(t, Key.Address) == FieldValue(e, Key.Address);
    assert ValueAt(t, Key.ServiceUuid) == FieldValue(e, Key.ServiceUuid);
    assert ValueAt(t, Key.NamePrefix) == FieldValue(e, Key.NamePrefix);
  }

  lemma StandingIntegers(t: Table, e: DeviceEntry)
    requires IsTyped(e) && StandsFor(t, e)
    ensures IntegerOrAbsent(t, Key.ThresholdDbm, -32_768, 32_767) && IntegerOrAbsent(t, Key.MinimumSamples, 0, 255)
    ensures IntegerOrAbsent(t, Key.SampleWindowMs, 0, MAX_I64) && IntegerOrAbsent(t, Key.FreshnessMs, 0, MAX_I64)
    ensures IntegerAt(t, Key.ThresholdDbm) == e.thresholdDbm && NaturalAt(t, Key.MinimumSamples) == e.minimumSamples
    ensures NaturalAt(t, Key.SampleWindowMs) == e.sampleWindowMs && NaturalAt(t, Key.FreshnessMs) == e.freshnessMs
  {
    assert ValueAt(t, Key.ThresholdDbm) == FieldValue(e, Key.ThresholdDbm);
    assert ValueAt(t, Key.MinimumSamples) == FieldValue(e, Key.MinimumSamples);
    assert ValueAt(t, Key.SampleWindowMs) == FieldValue(e, Key.SampleWindowMs);
    assert ValueAt(t, Key.FreshnessMs) == FieldValue(e, Key.FreshnessMs);
  }

  lemma StandingTableReads(t: Table, e: DeviceEntry)
    requires IsTyped(e) && StandsFor(t, e)
    ensures TableReads(t) && EntryOf(t) == e
  {
    forall key | key in t
      ensures IsKnown(key)
    {
      assert ValueAt(t, key) == FieldValue(e, key);
    }
    StandingTexts(t, e);
    StandingIntegers(t, e);
  }

  /** A table reads exactly when it stands for a typed entry, and reads as that entry. */
  lemma ReadsExactly(t: Table)
    ensures TableReads(t) <==> exists e :: IsTyped(e) && StandsFor(t, e)
    ensures forall e | IsTyped(e) && StandsFor(t, e) :: TableReads(t) && EntryOf(t) == e
  {
    if TableReads(t) {
      ReadTableStands(t);
    }
    forall e | IsTyped(e) && StandsFor(t, e)
      ensures TableReads(t) && EntryOf(t) == e
    {
      StandingTableReads(t, e);
    }
  }

  predicate AllRead(tables: seq<Table>) {
    forall i | 0 <= i < |tables| :: TableReads(tables[i])
  }

  /** The devices `derive_id` sees: a file that does not read counts as none. `rest` is whether everything
      but the device tables reads. */
  function Loaded(tables: seq<Table>, rest: bool): seq<DeviceEntry> {
    if rest && AllRead(tables) then seq(|tables|, i requires 0 <= i < |tables| => EntryOf(tables[i])) else []
  }

  /** Writing keeps every table and adds one exactly when no table carries the id at that time. */
  lemma EveryTableIsKeptExactly(tables: seq<Table>, id: string, profile: string, c: Criteria, o: Overrides)
    ensures Applied(tables, id, profile, c, o) == tables + [FreshTable(id, profile, c, o)] <==>
            forall i | 0 <= i < |tables| :: !HasId(tables[i], id)
  {
    ApplyTouchesOneTable(tables, id, profile, c, o);
  }

  /** So it does when the id was derived, for an address not enrolled, from the very tables it is written
      to and they all read: enrolling something new then replaces nothing, and removing it restores them. */
  lemma EnrollingSomethingNewReplacesNothing(
    tables: seq<Table>, name: Option<string>, id: string, profile: string, c: Criteria, o: Overrides)
    requires AllRead(tables) && IsDerivedId(Loaded(tables, true), name, c.address, id)
    requires c.address.None? || forall e | e in Loaded(tables, true) :: !IsEnrolledAt(e, c.address.value)
    ensures Applied(tables, id, profile, c, o) == tables + [FreshTable(id, profile, c, o)]
    ensures Without(Applied(tables, id, profile, c, o), id) == tables
  {
    DerivedIdIsFresh(Loaded(tables, true), name, c.address, id);
    forall i | 0 <= i < |tables|
      ensures !HasId(tables[i], id)
    {
      assert Loaded(tables, true)[i] in Loaded(tables, true);
    }
    ApplyTouchesOneTable(tables, id, profile, c, o);
  }

  lemma WordIsItsSlug(w: string)
    requires IsWord(w)
    ensures Slug(w) == Some(w)
  {
    WordsAfterWord("", w);
    assert "" + w == w && WordsOf(w).all == [w];
  }

  /** The documented promise fails for a file that does not read: a new device called like the enrolled one
      gets its id, and writing it leaves nothing of the enrolled device, nor of what kept the file from
      reading, when that is a key enrollment owns. */
  lemma UnreadableFileLosesADevice(held: Table, w: string, profile: string, c: Criteria, o: Overrides)
    requires IsWord(w) && HasId(held, w) && !TableReads(held)
    requires forall key | key in held :: key == Key.Id || IsOwned(key)
    ensures IsDerivedId(Loaded([held], true), Some(w), c.address, w)
    ensures Applied([held], w, profile, c, o) == [FreshTable(w, profile, c, o)]
  {
    WordIsItsSlug(w);
    assert !AllRead([held]) by { assert !TableReads([held][0]); }
    assert Ids([]) == [];
    ReplacementIsFullUnlessForeignKeys(held, w, profile, c, o);
  }

  /** Such a table: a threshold no entry can hold, set by hand. */
  function HandEdited(w: string, address: string): Table {
    map[Key.Id := StringValue(w), Key.Profile := StringValue("presence"), Key.Address := StringValue(address),
        Key.ThresholdDbm := Integer(99_999)]
  }

  lemma HandEditedIsLost(w: string, address: string, c: Criteria, o: Overrides)
    requires IsWord(w)
    ensures IsDerivedId(Loaded([HandEdited(w, address)], true), Some(w), c.address, w)
    ensures Applied([HandEdited(w, address)], w, "presence", c, o) == [FreshTable(w, "presence", c, o)]
  {
    var held := HandEdited(w, address);
    assert !IntegerOrAbsent(held, Key.ThresholdDbm, -32_768, 32_767);
    UnreadableFileLosesADevice(held, w, "presence", c, o);
  }

  predicate InRange(o: Overrides) {
    && (o.thresholdDbm.Some? ==> -32_768 <= o.thresholdDbm.value <= 32_767)
    && (o.minimumSamples.Some? ==> o.minimumSamples.value <= 255)
  }

  lemma TextValue(t: Table, key: Key, text: Option<string>)
    requires ValueAt(t, key) == AsText(text)
    ensures TextOrAbsent(t, key)
  {
  }

  lemma IntegerValue(t: Table, key: Key, n: Option<int>, lowest: int, highest: int)
    requires ValueAt(t, key) == AsInteger(n) && (n.Some? ==> lowest <= n.value <= highest)
    ensures IntegerOrAbsent(t, key, lowest, highest)
  {
  }

  lemma FreshTableTexts(id: string, profile: string, c: Criteria, o: Overrides)
    ensures var t := FreshTable(id, profile, c, o);
            && Key.Profile in t && HasId(t, id)
            && HasTexts(t)
  {
    var bare, t := map[Key.Id := StringValue(id)], FreshTable(id, profile, c, o);
    RewrittenKeepsId(bare, id, profile, c, o);
    NoStaleCriterion(bare, profile, c, o);
    TextValue(t, Key.IrkBase64, c.irkBase64);
    TextValue(t, Key.Address, c.address);
    TextValue(t, Key.ServiceUuid, c.serviceUuid);
    TextValue(t, Key.NamePrefix, c.namePrefix);
  }

  lemma FreshTableIntegers(id: string, profile: string, c: Criteria, o: Overrides)
    requires InRange(o)
    ensures var t := FreshTable(id, profile, c, o);
            && IntegerOrAbsent(t, Key.ThresholdDbm, -32_768, 32_767)
            && IntegerOrAbsent(t, Key.MinimumSamples, 0, 255)
            && IntegerOrAbsent(t, Key.FreshnessMs, 0, MAX_I64)
  {
    var t := FreshTable(id, profile, c, o);
    NoStaleOverride(map[Key.Id := StringValue(id)], profile, c, o);
    IntegerValue(t, Key.ThresholdDbm, o.thresholdDbm, -32_768, 32_767);
    IntegerValue(t, Key.MinimumSamples, o.minimumSamples, 0, 255);
    IntegerValue(t, Key.FreshnessMs, Clamped(o.freshnessMs), 0, MAX_I64);
  }

  lemma FreshTableKeys(id: string, profile: string, c: Criteria, o: Overrides)
    ensures forall key | key in FreshTable(id, profile, c, o) :: IsKnown(key) && !key.SampleWindowMs?
  {
    var t := FreshTable(id, profile, c, o);
    assert Key.Kind !in t by {
      NoStaleCriterion(map[Key.Id := StringValue(id)], profile, c, o);
      assert ValueAt(t, Key.Kind) == None;
    }
    FreshTableIsOwned(id, profile, c, o);
  }

  /** And the file reads again afterwards, so nothing reports the loss. */
  lemma FreshTableReads(id: string, profile: string, c: Criteria, o: Overrides)
    requires InRange(o)
    ensures TableReads(FreshTable(id, profile, c, o))
  {
    FreshTableKeys(id, profile, c, o);
    FreshTableTexts(id, profile, c, o);
    FreshTableIntegers(id, profile, c, o);
  }

  /** What was enrolled is what is read back: the entry with the id, profile, criteria and overrides given, a
      freshness beyond a document's integers cut to the largest of them. */
  lemma EnrollmentReadsBack(id: string, profile: string, c: Criteria, o: Overrides)
    requires InRange(o)
    ensures TableReads(FreshTable(id, profile, c, o))
    ensures EntryOf(FreshTable(id, profile, c, o)) ==
            DeviceEntry(id, profile, c.irkBase64, c.address, c.serviceUuid, c.namePrefix,
                        o.thresholdDbm, o.minimumSamples, None,
                        if o.freshnessMs.Some? then Some(if o.freshnessMs.value < 9_223_372_036_854_775_807 then o.freshnessMs.value
                                                         else 9_223_372_036_854_775_807) else None)
  {
    var t := FreshTable(id, profile, c, o);
    FreshTableReads(id, profile, c, o);
    FreshTableKeys(id, profile, c, o);
    RewrittenKeepsId(map[Key.Id := StringValue(id)], id, profile, c, o);
    NoStaleCriterion(map[Key.Id := StringValue(id)], profile, c, o);
    NoStaleOverride(map[Key.Id := StringValue(id)], profile, c, o);
    TextReadsBack(t, Key.IrkBase64, c.irkBase64);
    TextReadsBack(t, Key.Address, c.address);
    TextReadsBack(t, Key.ServiceUuid, c.serviceUuid);
    TextReadsBack(t, Key.NamePrefix, c.namePrefix);
    IntegerReadsBack(t, Key.ThresholdDbm, o.thresholdDbm);
    IntegerReadsBack(t, Key.MinimumSamples, o.minimumSamples);
    IntegerReadsBack(t, Key.FreshnessMs, Clamped(o.freshnessMs));
  }

  lemma TextReadsBack(t: Table, key: Key, text: Option<string>)
    requires ValueAt(t, key) == AsText(text)
    ensures TextAt(t, key) == text
  {
  }

  lemma IntegerReadsBack(t: Table, key: Key, n: Option<int>)
    requires ValueAt(t, key) == AsInteger(n)
    ensures IntegerAt(t, key) == n
  {
  }

  /** Two enrollments that derive the same id before either writes end with one table: the second replaces
      what the first one wrote. */
  lemma SecondWriterReplacesTheFirst(
    tables: seq<Table>, id: string, profile: string, c: Criteria, o: Overrides, profile': string, c': Criteria, o': Overrides)
    requires forall i | 0 <= i < |tables| :: !HasId(tables[i], id)
    ensures Applied(Applied(tables, id, profile, c, o), id, profile', c', o') == tables + [FreshTable(id, profile', c', o')]
  {
    var first := FreshTable(id, profile, c, o);
    EveryTableIsKeptExactly(tables, id, profile, c, o);
    RewrittenKeepsId(map[Key.Id := StringValue(id)], id, profile, c, o);
    var after := tables + [first];
    assert HasId(after[|tables|], id) && forall i | 0 <= i < |tables| :: after[i] == tables[i];
    assert PositionOf(after, id) == Some(|tables|);
    FreshTableIsOwned(id, profile, c, o);
    ReplacementIsFullUnlessForeignKeys(first, id, profile', c', o');
  }

  lemma FreshTableIsOwned(id: string, profile: string, c: Criteria, o: Overrides)
    ensures forall key | key in FreshTable(id, profile, c, o) :: key == Key.Id || IsOwned(key)
  {
    RewrittenKeepsOthers(map[Key.Id := StringValue(id)], profile, c, o);
  }

  /** A `sample_window_ms` set by hand is such a key: it outlives re-enrollment. */
  lemma SampleWindowSurvives(t: Table, id: string, profile: string, c: Criteria, o: Overrides)
    requires HasId(t, id) && Key.SampleWindowMs in t
    ensures Key.SampleWindowMs in Rewritten(t, profile, c, o)
    ensures Rewritten(t, profile, c, o) != FreshTable(id, profile, c, o)
  {
    RewrittenKeepsOthers(t, profile, c, o);
    ReplacementIsFullUnlessForeignKeys(t, id, profile, c, o);
  }
}
