/** The Apple Continuity decoder (crates/protocol/src/apple.rs): a loop over type-length-value entries. */
module Continuity {
  import opened Prelude

  const COMPANY_ID: nat := 0x004c
  const NEARBY_INFO_TYPE: byte := 0x10
  const WATCH_AUTO_UNLOCK_ENABLED: byte := 0x40
  const WATCH_LOCKED: byte := 0x20
  const AUTO_UNLOCK_ENABLED: byte := 0x80

  datatype NearbyInfo = NearbyInfo(watchLocked: bool, watchAutoUnlockEnabled: bool, autoUnlockEnabled: bool)

  datatype ParseError = Truncated | MissingNearbyInfo | ShortNearbyInfo | DuplicateNearbyInfo

  type Parsed = Result<NearbyInfo, ParseError>

  /** `flags & mask != 0` for a mask of one bit. */
  predicate HasFlag(flags: byte, mask: byte)
    requires mask > 0
  {
    (flags / mask) % 2 == 1
  }

  function InfoOf(flags: byte): NearbyInfo {
    NearbyInfo(HasFlag(flags, WATCH_LOCKED), HasFlag(flags, WATCH_AUTO_UNLOCK_ENABLED), HasFlag(flags, AUTO_UNLOCK_ENABLED))
  }

  /** Which bit of the flags byte says what: the top one auto-unlock, the next the watch's own auto-unlock,
      the third that the watch is locked. */
  lemma FlagBits(autoUnlock: nat, watchAutoUnlock: nat, locked: nat, others: nat)
    requires autoUnlock < 2 && watchAutoUnlock < 2 && locked < 2 && others < 32
    ensures InfoOf(128 * autoUnlock + 64 * watchAutoUnlock + 32 * locked + others) ==
            NearbyInfo(locked == 1, watchAutoUnlock == 1, autoUnlock == 1)
  {
    var flags := 128 * autoUnlock + 64 * watchAutoUnlock + 32 * locked + others;
    assert flags / 32 == 4 * autoUnlock + 2 * watchAutoUnlock + locked;
    assert flags / 64 == 2 * autoUnlock + watchAutoUnlock;
    assert flags / 128 == autoUnlock;
  }

  // ---------------------------------------------------------------------
  // Entries
  // ---------------------------------------------------------------------

  /** One entry: a type byte, a length byte and that many bytes. */
  datatype Tlv = Tlv(kind: byte, payload: seq<byte>)
  {
    predicate Fits() {
      |payload| < 256
    }

    predicate IsNearbyInfo() {
      kind == NEARBY_INFO_TYPE
    }

    function Bytes(): seq<byte>
      requires Fits()
    {
      [kind, |payload|] + payload
    }
  }

  ghost predicate AllFit(ts: seq<Tlv>) {
    forall t | t in ts :: t.Fits()
  }

  ghost function Encode(ts: seq<Tlv>): seq<byte>
    requires AllFit(ts)
  {
    if ts == [] then [] else ts[0].Bytes() + Encode(ts[1..])
  }

  function InfoIn(t: Tlv): seq<Tlv> {
    if t.IsNearbyInfo() then [t] else []
  }

  ghost function NearbyInfos(ts: seq<Tlv>): seq<Tlv> {
    if ts == [] then []
    else InfoIn(ts[0]) + NearbyInfos(ts[1..])
  }

  /** No entry of `ts` is a reason to stop: at most one Nearby Info, and it is long enough. */
  ghost predicate Clean(ts: seq<Tlv>) {
    |NearbyInfos(ts)| <= 1 && forall t | t in NearbyInfos(ts) :: |t.payload| >= 3
  }

  /** Bytes too few for the entry they start. */
  predicate Incomplete(data: seq<byte>) {
    0 < |data| && (|data| < 2 || |data| - 2 < data[1])
  }

  /** The payload decodes as `found` says, or its first defect in reading order is the one reported. */
  ghost predicate Explains(data: seq<byte>, found: Parsed, ts: seq<Tlv>, rest: seq<byte>) {
    && AllFit(ts) && Clean(ts)
    && data == Encode(ts) + rest
    && match found
       case Ok(info) => rest == [] && |NearbyInfos(ts)| == 1 && info == InfoOf(NearbyInfos(ts)[0].payload[1])
       case Err(MissingNearbyInfo) => rest == [] && NearbyInfos(ts) == []
       case Err(Truncated) => Incomplete(rest)
       case Err(ShortNearbyInfo) => rest != [] && !Incomplete(rest) && rest[0] == NEARBY_INFO_TYPE && rest[1] < 3
       case Err(DuplicateNearbyInfo) =>
         rest != [] && !Incomplete(rest) && rest[0] == NEARBY_INFO_TYPE && rest[1] >= 3 && |NearbyInfos(ts)| == 1
  }

  ghost predicate Decodes(data: seq<byte>, found: Parsed) {
    exists ts, rest :: Explains(data, found, ts, rest)
  }

  // ---------------------------------------------------------------------
  // The decoder
  // ---------------------------------------------------------------------

  /** What remains to be decided when the loop stands at `data`, having found `result` so far. */
  function ParseRest(data: seq<byte>, result: Option<NearbyInfo>): Parsed {
    if data == [] then
      if result.Some? then Ok(result.value) else Err(MissingNearbyInfo)
    else if Incomplete(data) then
      Err(Truncated)
    else
      var payload := data[2..2 + data[1]];
      var rest := data[2 + data[1]..];
      if data[0] != NEARBY_INFO_TYPE then ParseRest(rest, result)
      else if |payload| < 3 then Err(ShortNearbyInfo)
      else if result.Some? then Err(DuplicateNearbyInfo)
      else ParseRest(rest, Some(InfoOf(payload[1])))
  }

  function Parse(data: seq<byte>): Parsed {
    ParseRest(data, None)
  }

  /** The source's loop. It ends on every input, having read only inside `data`. */
  method ParseNearbyInfo(data: seq<byte>) returns (r: Parsed)
    ensures r == Parse(data)
    ensures Decodes(data, r)
  {
    var offset := 0;
    var result: Option<NearbyInfo> := None;
    while offset < |data|
      invariant 0 <= offset <= |data|
      invariant Parse(data) == ParseRest(data[offset..], result)
    {
      if |data| - offset < 2 {
        ParseDecodes(data);
        return Err(Truncated);
      }
      var kind, length := data[offset], data[offset + 1];
      var start := offset + 2;
      var end := start + length;
      if end > |data| {
        ParseDecodes(data);
        return Err(Truncated);
      }
      var payload := data[start..end];
      assert data[offset..][2..2 + length] == payload;
      assert data[offset..][2 + length..] == data[end..];
      if kind == NEARBY_INFO_TYPE {
        if |payload| < 3 {
          ParseDecodes(data);
          return Err(ShortNearbyInfo);
        }
        if result.Some? {
          ParseDecodes(data);
          return Err(DuplicateNearbyInfo);
        }
        result := Some(InfoOf(payload[1]));
      }
      offset := end;
    }
    ParseDecodes(data);
    r := if result.Some? then Ok(result.value) else Err(MissingNearbyInfo);
  }

  // ---------------------------------------------------------------------
  // Correctness
  // ---------------------------------------------------------------------

  lemma {:induction false} EncodeAppend(ts: seq<Tlv>, t: Tlv)
    requires AllFit(ts) && t.Fits()
    ensures AllFit(ts + [t]) && Encode(ts + [t]) == Encode(ts) + t.Bytes()
  {
    if ts == [] {
      assert ts + [t] == [t];
    } else {
      var first, rest := ts[0], ts[1..];
      assert (ts + [t])[1..] == rest + [t];
      EncodeAppend(rest, t);
      assert first.Bytes() + (Encode(rest) + t.Bytes()) == (first.Bytes() + Encode(rest)) + t.Bytes();
    }
  }

  lemma {:induction false} NearbyInfosConcat(a: seq<Tlv>, b: seq<Tlv>)
    ensures NearbyInfos(a + b) == NearbyInfos(a) + NearbyInfos(b)
  {
    if a == [] {
      assert a + b == b;
    } else {
      var first, rest := a[0], a[1..];
      assert (a + b)[1..] == rest + b;
      NearbyInfosConcat(rest, b);
      assert InfoIn(first) + (NearbyInfos(rest) + NearbyInfos(b)) == (InfoIn(first) + NearbyInfos(rest)) + NearbyInfos(b);
    }
  }

  lemma NearbyInfosAppend(ts: seq<Tlv>, t: Tlv)
    ensures NearbyInfos(ts + [t]) == NearbyInfos(ts) + InfoIn(t)
  {
    NearbyInfosConcat(ts, [t]);
    assert NearbyInfos([t]) == InfoIn(t) + NearbyInfos([]);
  }

  lemma ParseDecodes(data: seq<byte>)
    ensures Decodes(data, Parse(data))
  {
    ParseRestExplained(data, [], data, None);
  }

  /** Where the loop stands: `ts` read, `rest` to read, `result` found. */
  ghost predicate Standing(data: seq<byte>, ts: seq<Tlv>, rest: seq<byte>, result: Option<NearbyInfo>) {
    && AllFit(ts) && Clean(ts) && data == Encode(ts) + rest
    && result == if NearbyInfos(ts) == [] then None else Some(InfoOf(NearbyInfos(ts)[0].payload[1]))
  }

  /** The entry at the front of the bytes. */
  function FrontEntry(rest: seq<byte>): (t: Tlv)
    requires rest != [] && !Incomplete(rest)
    ensures t.Fits() && t.kind == rest[0] && |t.payload| == rest[1]
    ensures rest == t.Bytes() + rest[2 + rest[1]..]
  {
    Tlv(rest[0], rest[2..2 + rest[1]])
  }

  /** The entry at the front is no reason to stop. */
  predicate GoesOn(rest: seq<byte>, result: Option<NearbyInfo>)
    requires rest != [] && !Incomplete(rest)
  {
    rest[0] == NEARBY_INFO_TYPE ==> rest[1] >= 3 && result.None?
  }

  lemma ReadEntry(data: seq<byte>, ts: seq<Tlv>, rest: seq<byte>, result: Option<NearbyInfo>)
    requires Standing(data, ts, rest, result) && rest != [] && !Incomplete(rest) && GoesOn(rest, result)
    ensures var t := FrontEntry(rest);
            Standing(data, ts + [t], rest[2 + rest[1]..], if t.IsNearbyInfo() then Some(InfoOf(t.payload[1])) else result)
  {
    var t := FrontEntry(rest);
    EncodeAppend(ts, t);
    NearbyInfosAppend(ts, t);
    assert data == Encode(ts + [t]) + rest[2 + rest[1]..];
  }

  lemma {:induction false} ParseRestExplained(data: seq<byte>, ts: seq<Tlv>, rest: seq<byte>, result: Option<NearbyInfo>)
    requires Standing(data, ts, rest, result)
    ensures Decodes(data, ParseRest(rest, result))
    decreases |rest|
  {
    if rest != [] && !Incomplete(rest) && GoesOn(rest, result) {
      var t := FrontEntry(rest);
      ReadEntry(data, ts, rest, result);
      ParseRestExplained(data, ts + [t], rest[2 + rest[1]..], if t.IsNearbyInfo() then Some(InfoOf(t.payload[1])) else result);
    } else {
      assert Explains(data, ParseRest(rest, result), ts, rest);
    }
  }

  /** An incomplete tail is never the start of a complete entry. */
  lemma {:induction false} DecompositionUnique(ts: seq<Tlv>, rest: seq<byte>, us: seq<Tlv>, tail: seq<byte>)
    requires AllFit(ts) && AllFit(us)
    requires Encode(ts) + rest == Encode(us) + tail
    requires |ts| <= |us|
    ensures ts == us[..|ts|] && rest == Encode(us[|ts|..]) + tail
  {
    if ts == [] {
      assert us[|ts|..] == us;
    } else {
      var t, u := ts[0], us[0];
      var data := Encode(ts) + rest;
      assert data == t.Bytes() + (Encode(ts[1..]) + rest);
      assert data == u.Bytes() + (Encode(us[1..]) + tail);
      assert data[0] == t.kind == u.kind && data[1] == |t.payload| == |u.payload|;
      assert data[2..2 + data[1]] == t.payload == u.payload;
      assert data[2 + data[1]..] == Encode(ts[1..]) + rest == Encode(us[1..]) + tail;
      DecompositionUnique(ts[1..], rest, us[1..], tail);
      assert us[|ts|..] == us[1..][|ts| - 1..];
      assert us[..|ts|] == [us[0]] + us[1..][..|ts| - 1];
    }
  }

  /** A payload has one reading: the decoder's answer is the only one that explains it. */
  lemma ExplanationUnique(data: seq<byte>, found: Parsed)
    requires Decodes(data, found)
    ensures found == Parse(data)
  {
    ParseDecodes(data);
    var ts, rest :| Explains(data, found, ts, rest);
    var us, tail :| Explains(data, Parse(data), us, tail);
    if |ts| <= |us| {
      SameReading(data, found, ts, rest, Parse(data), us, tail);
    } else {
      SameReading(data, Parse(data), us, tail, found, ts, rest);
    }
  }

  /** Where one reading has a further entry, the other cannot have stopped: neither at an incomplete
      entry nor at one that would be a reason to stop. */
  lemma NextEntry(ts: seq<Tlv>, rest: seq<byte>, us: seq<Tlv>, tail: seq<byte>)
    requires AllFit(us) && Clean(us) && |ts| < |us| && ts == us[..|ts|] && rest == Encode(us[|ts|..]) + tail
    ensures rest != [] && !Incomplete(rest)
    ensures rest[0] == NEARBY_INFO_TYPE ==> rest[1] >= 3 && NearbyInfos(ts) == []
  {
    var next := us[|ts|];
    assert next in us && us[|ts|..][0] == next;
    assert rest[0] == next.kind && rest[1] == |next.payload|;
    NextInfo(ts, us);
  }

  /** The next entry is one of the entries' Nearby Infos, after those read before it. */
  lemma NextInfo(ts: seq<Tlv>, us: seq<Tlv>)
    requires Clean(us) && |ts| < |us| && ts == us[..|ts|]
    ensures us[|ts|].IsNearbyInfo() ==> |us[|ts|].payload| >= 3 && NearbyInfos(ts) == []
  {
    var next := us[|ts|];
    assert us == ts + [next] + us[|ts| + 1..];
    NearbyInfosConcat(ts + [next], us[|ts| + 1..]);
    NearbyInfosAppend(ts, next);
    assert next.IsNearbyInfo() ==> NearbyInfos(ts + [next])[|NearbyInfos(ts)|] == next && next in NearbyInfos(us);
  }

  lemma SameReading(data: seq<byte>, a: Parsed, ts: seq<Tlv>, rest: seq<byte>, b: Parsed, us: seq<Tlv>, tail: seq<byte>)
    requires Explains(data, a, ts, rest) && Explains(data, b, us, tail)
    requires |ts| <= |us|
    ensures a == b
  {
    DecompositionUnique(ts, rest, us, tail);
    if |ts| == |us| {
      assert us[..|ts|] == us && us[|ts|..] == [];
      assert rest == tail;
    } else {
      NextEntry(ts, rest, us, tail);
    }
  }

  ghost predicate IsCompleteWith(data: seq<byte>, ts: seq<Tlv>) {
    AllFit(ts) && Encode(ts) == data
  }

  /** Main result: a payload decodes to `info` exactly when it is a run of complete entries with
      one Nearby Info, three bytes or longer, whose second byte carries those flags. */
  lemma ParsesExactly(data: seq<byte>, info: NearbyInfo)
    ensures Parse(data) == Ok(info) <==>
            exists ts :: IsCompleteWith(data, ts) && |NearbyInfos(ts)| == 1 && |NearbyInfos(ts)[0].payload| >= 3
                         && info == InfoOf(NearbyInfos(ts)[0].payload[1])
  {
    if Parse(data) == Ok(info) {
      ParseDecodes(data);
      var ts, rest :| Explains(data, Parse(data), ts, rest);
      assert IsCompleteWith(data, ts);
    }
    if ts :| IsCompleteWith(data, ts) && |NearbyInfos(ts)| == 1 && |NearbyInfos(ts)[0].payload| >= 3
             && info == InfoOf(NearbyInfos(ts)[0].payload[1]) {
      assert Explains(data, Ok(info), ts, []);
      ExplanationUnique(data, Ok(info));
    }
  }

  /** Nearby Info is missing exactly from runs of complete entries that hold none. */
  lemma MissesExactly(data: seq<byte>)
    ensures Parse(data) == Err(MissingNearbyInfo) <==> exists ts :: IsCompleteWith(data, ts) && NearbyInfos(ts) == []
  {
    if Parse(data) == Err(MissingNearbyInfo) {
      ParseDecodes(data);
      var ts, rest :| Explains(data, Parse(data), ts, rest);
      assert IsCompleteWith(data, ts);
    }
    if ts :| IsCompleteWith(data, ts) && NearbyInfos(ts) == [] {
      assert Explains(data, Err(MissingNearbyInfo), ts, []);
      ExplanationUnique(data, Err(MissingNearbyInfo));
    }
  }
}
