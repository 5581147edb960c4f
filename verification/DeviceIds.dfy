/** Choosing a new device's id (crates/cli/src/devices.rs). */
module DeviceIds {
  import opened Prelude
  import opened Text
  import opened Slugs
  import opened Config
  import Numerals
  import Addresses

  // ---------------------------------------------------------------------
  // A free id
  // ---------------------------------------------------------------------

  predicate EqIgnoreAsciiCase(a: string, b: string) {
    |a| == |b| && forall i | 0 <= i < |a| :: ToLower(a[i]) == ToLower(b[i])
  }

  predicate HasAddress(e: DeviceEntry, address: string) {
    e.address.Some? && EqIgnoreAsciiCase(e.address.value, address)
  }

  function Ids(entries: seq<DeviceEntry>): seq<string> {
    seq(|entries|, i requires 0 <= i < |entries| => entries[i].id)
  }

  function BaseId(name: Option<string>, address: Option<string>): string {
    var fromName := if name.Some? then Slug(name.value) else None;
    var fromAddress := if address.Some? then Slug(address.value) else None;
    if fromName.Some? then fromName.value else if fromAddress.Some? then fromAddress.value else "device"
  }

  function Candidate(base: string, suffix: nat): string {
    base + "-" + Numerals.Decimal(suffix)
  }

  lemma CandidateInjective(base: string, a: nat, b: nat)
    requires Candidate(base, a) == Candidate(base, b)
    ensures a == b
  {
    var n := |base + "-"|;
    assert Candidate(base, a)[n..] == Numerals.Decimal(a);
    assert Candidate(base, b)[n..] == Numerals.Decimal(b);
    Numerals.DecimalInjective(a, b);
  }

  function ElementsOf(xs: seq<string>): set<string> {
    set x | x in xs
  }

  lemma {:induction false} FewElements(xs: seq<string>)
    ensures |ElementsOf(xs)| <= |xs|
  {
    if xs != [] {
      var front, last := xs[..|xs| - 1], xs[|xs| - 1];
      FewElements(front);
      assert xs == front + [last];
      assert ElementsOf(xs) == ElementsOf(front) + {last};
    }
  }

  /** The first `n` candidates are `n` different strings. */
  lemma {:induction false} DistinctCandidates(base: string, n: nat) returns (s: set<string>)
    ensures |s| == n && forall x | x in s :: exists k :: 2 <= k < n + 2 && x == Candidate(base, k)
  {
    if n == 0 {
      s := {};
    } else {
      var before := DistinctCandidates(base, n - 1);
      var next := Candidate(base, n + 1);
      forall k | 2 <= k < n + 1
        ensures next != Candidate(base, k)
      {
        if next == Candidate(base, k) {
          CandidateInjective(base, n + 1, k);
        }
      }
      s := before + {next};
    }
  }

  /** N taken ids leave one of N+1 candidates free. */
  lemma SomeCandidateIsFree(base: string, taken: seq<string>)
    ensures exists k :: 2 <= k <= |taken| + 2 && Candidate(base, k) !in taken
  {
    var candidates := DistinctCandidates(base, |taken| + 1);
    FewElements(taken);
    if candidates <= ElementsOf(taken) {
      SubsetSize(candidates, ElementsOf(taken));
    } else {
      var x :| x in candidates && x !in ElementsOf(taken);
    }
  }

  /** The device is enrolled with this address, upper and lower case being the same. */
  ghost predicate IsEnrolledAt(e: DeviceEntry, address: string) {
    && e.address.Some? && |e.address.value| == |address|
    && forall i | 0 <= i < |address| :: ToLower(e.address.value[i]) == ToLower(address[i])
  }

  /** What `derive_id` answers: the id already enrolled with this address, else the base when it is free,
      else the base with the least suffix from 2 that is free. */
  ghost predicate IsDerivedId(entries: seq<DeviceEntry>, name: Option<string>, address: Option<string>, id: string) {
    var taken, base := Ids(entries), BaseId(name, address);
    if address.Some? && exists e | e in entries :: IsEnrolledAt(e, address.value) then
      exists i :: && 0 <= i < |entries| && IsEnrolledAt(entries[i], address.value) && id == entries[i].id
                  && forall j | 0 <= j < i :: !IsEnrolledAt(entries[j], address.value)
    else if base !in taken then id == base
    else
      exists k :: && 2 <= k <= |taken| + 2 && id == Candidate(base, k) && id !in taken
                  && forall j | 2 <= j < k :: Candidate(base, j) in taken
  }

  /** Where the base comes from: the name if it has a letter or digit, else the address, else the word
      `device`; a suffix is the base, a dash and the number. */
  lemma BaseReadings(name: Option<string>, address: Option<string>, k: nat)
    ensures name.Some? && Slug(name.value).Some? ==> BaseId(name, address) == Slug(name.value).value
    ensures (name.None? || Slug(name.value).None?) && address.Some? && Slug(address.value).Some? ==>
              BaseId(name, address) == Slug(address.value).value
    ensures (name.None? || Slug(name.value).None?) && (address.None? || Slug(address.value).None?) ==>
              BaseId(name, address) == "device" && Candidate(BaseId(name, address), k) == "device-" + Numerals.Decimal(k)
  {
  }

  /** The source's searches. The final fallback, the taken base itself, is never reached. */
  method DeriveId(entries: seq<DeviceEntry>, name: Option<string>, address: Option<string>) returns (id: string)
    ensures IsDerivedId(entries, name, address, id)
  {
    if address.Some? {
      for i := 0 to |entries|
        invariant forall j | 0 <= j < i :: !HasAddress(entries[j], address.value)
      {
        if HasAddress(entries[i], address.value) {
          assert entries[i] in entries;
          return entries[i].id;
        }
      }
    }
    var taken, base := Ids(entries), BaseId(name, address);
    if base !in taken {
      return base;
    }
    for k := 2 to |taken| + 3
      invariant forall j | 2 <= j < k :: Candidate(base, j) in taken
    {
      if Candidate(base, k) !in taken {
        return Candidate(base, k);
      }
    }
    SomeCandidateIsFree(base, taken);
    assert false;
    id := base;
  }

  /** Unless the address is enrolled already, the derived id is nobody's. */
  lemma DerivedIdIsFresh(entries: seq<DeviceEntry>, name: Option<string>, address: Option<string>, id: string)
    requires IsDerivedId(entries, name, address, id)
    requires address.None? || forall e | e in entries :: !IsEnrolledAt(e, address.value)
    ensures forall e | e in entries :: e.id != id
  {
    forall e | e in entries
      ensures e.id in Ids(entries)
    {
      var i :| 0 <= i < |entries| && entries[i] == e;
      assert Ids(entries)[i] == e.id;
    }
  }

  lemma SlugIsToken(s: string)
    requires IsSlug(s)
    ensures IsToken(s)
  {
  }

  /** And it is one token whatever the device is called, so its status row reads back. */
  lemma DerivedIdIsToken(entries: seq<DeviceEntry>, name: Option<string>, address: Option<string>, id: string)
    requires IsDerivedId(entries, name, address, id)
    requires address.None? || forall e | e in entries :: !IsEnrolledAt(e, address.value)
    ensures IsToken(id)
  {
    if name.Some? {
      SlugShape(name.value);
    }
    if address.Some? {
      SlugShape(address.value);
    }
    var base := BaseId(name, address);
    assert IsToken(base) by {
      if IsSlug(base) {
        SlugIsToken(base);
      }
    }
  }

  /** Two addresses of the documented form are the same ignoring case exactly when they are the same
      address, so a re-registered device keeps its id however its address is written. */
  lemma SameAddressIgnoringCase(a: string, b: string)
    requires Addresses.IsDocumentedForm(a) && Addresses.IsDocumentedForm(b)
    ensures EqIgnoreAsciiCase(a, b) <==> Addresses.AddressOf(a) == Addresses.AddressOf(b)
  {
    Addresses.TextRoundTrip(a);
    Addresses.TextRoundTrip(b);
    UpperIsLower(a, b);
    Addresses.AddressRoundTrip(Addresses.AddressOf(a).value);
    Addresses.AddressRoundTrip(Addresses.AddressOf(b).value);
  }

  lemma UpperIsLower(a: string, b: string)
    ensures EqIgnoreAsciiCase(a, b) <==> Addresses.ToUpperAll(a) == Addresses.ToUpperAll(b)
  {
    forall c: char, d: char
      ensures ToLower(c) == ToLower(d) <==> ToUpper(c) == ToUpper(d)
    {
    }
    if Addresses.ToUpperAll(a) == Addresses.ToUpperAll(b) {
      assert |Addresses.ToUpperAll(a)| == |a| && |Addresses.ToUpperAll(b)| == |b|;
      assert forall i | 0 <= i < |a| :: Addresses.ToUpperAll(a)[i] == ToUpper(a[i]);
      assert forall i | 0 <= i < |b| :: Addresses.ToUpperAll(b)[i] == ToUpper(b[i]);
    }
  }
}
