/** Six-byte device addresses and their text form (crates/protocol/src/ble.rs). */
module Addresses {
  import opened Prelude
  import opened Text

  type Address = a: seq<byte> | |a| == 6 witness [0, 0, 0, 0, 0, 0]

  predicate IsHex(c: char) {
    IsDigit(c) || 'a' <= c <= 'f' || 'A' <= c <= 'F'
  }

  function HexValue(c: char): nat
    requires IsHex(c)
  {
    if IsDigit(c) then c as int - '0' as int
    else if IsLower(c) then c as int - 'a' as int + 10
    else c as int - 'A' as int + 10
  }

  function HexChar(d: nat): char
    requires d < 16
  {
    if d < 10 then '0' + d as char else 'A' + (d - 10) as char
  }

  /** `u8::from_str_radix(octet, 16)` on two characters: a leading plus sign is a sign. */
  function ParseOctet(octet: string): Option<byte> {
    if |octet| != 2 || !IsHex(octet[1]) then None
    else if octet[0] == '+' then Some(HexValue(octet[1]))
    else if IsHex(octet[0]) then Some(16 * HexValue(octet[0]) + HexValue(octet[1]))
    else None
  }

  function AddressOf(text: string): Option<Address> {
    var octets := Split(text, ':');
    if |octets| == 6 && forall i | 0 <= i < 6 :: ParseOctet(octets[i]).Some? then
      Some(seq(6, i requires 0 <= i < 6 => ParseOctet(octets[i]).value))
    else None
  }

  /** The source's loop over six slots and an iterator of octets. */
  method ParseAddress(text: string) returns (r: Option<Address>)
    ensures r == AddressOf(text)
  {
    var octets := Split(text, ':');
    var address: seq<byte> := [];
    var next := 0;
    while |address| < 6
      invariant next == |address| <= 6
      invariant next <= |octets|
      invariant forall i | 0 <= i < next :: ParseOctet(octets[i]) == Some(address[i])
      decreases 6 - |address|
    {
      if next == |octets| {
        return None;
      }
      var octet := octets[next];
      next := next + 1;
      if |octet| != 2 {
        assert ParseOctet(octets[next - 1]).None?;
        return None;
      }
      var slot := ParseOctet(octet);
      if slot.None? {
        return None;
      }
      address := address + [slot.value];
    }
    if next < |octets| {
      return None;
    }
    assert address == AddressOf(text).value;
    r := Some(address);
  }

  function OctetText(b: byte): string {
    [HexChar(b / 16), HexChar(b % 16)]
  }

  function FormatAddress(a: Address): string {
    Join(seq(6, i requires 0 <= i < 6 => OctetText(a[i])), ':')
  }

  /** Two hexadecimal digits, in either case. */
  predicate IsHexPair(octet: string) {
    |octet| == 2 && octet[0] in "0123456789abcdefABCDEF" && octet[1] in "0123456789abcdefABCDEF"
  }

  lemma HexDigits(c: char)
    ensures IsHex(c) <==> c in "0123456789abcdefABCDEF"
  {
    var digits := "0123456789abcdefABCDEF";
    if IsHex(c) {
      assert digits[HexIndex(c)] == c;
    }
  }

  function HexIndex(c: char): nat
    requires IsHex(c)
  {
    if IsDigit(c) then c as int - '0' as int
    else if IsLower(c) then c as int - 'a' as int + 10
    else c as int - 'A' as int + 16
  }

  /** What the documentation promises to accept: six colon-separated pairs of hex digits. */
  predicate IsDocumentedForm(text: string) {
    var octets := Split(text, ':');
    |octets| == 6 && forall o | o in octets :: IsHexPair(o)
  }

  function ToUpperAll(s: string): string {
    seq(|s|, i requires 0 <= i < |s| => ToUpper(s[i]))
  }

  lemma OctetPrintsBack(b: byte)
    ensures ParseOctet(OctetText(b)) == Some(b) && ':' !in OctetText(b)
  {
  }

  /** Printing an address and parsing it gives the address back. */
  lemma AddressRoundTrip(a: Address)
    ensures AddressOf(FormatAddress(a)) == Some(a)
  {
    var octets := seq(6, i requires 0 <= i < 6 => OctetText(a[i]));
    forall i | 0 <= i < 6
      ensures ParseOctet(octets[i]) == Some(a[i]) && ':' !in octets[i]
    {
      OctetPrintsBack(a[i]);
    }
    SplitJoin(octets, ':');
    assert AddressOf(FormatAddress(a)).value == a;
  }

  lemma {:induction false} ToUpperJoin(fields: seq<string>)
    requires |fields| > 0
    ensures ToUpperAll(Join(fields, ':')) == Join(seq(|fields|, i requires 0 <= i < |fields| => ToUpperAll(fields[i])), ':')
  {
    var upper := seq(|fields|, i requires 0 <= i < |fields| => ToUpperAll(fields[i]));
    if |fields| > 1 {
      ToUpperJoin(fields[1..]);
      assert upper[1..] == seq(|fields[1..]|, i requires 0 <= i < |fields[1..]| => ToUpperAll(fields[1..][i]));
      var rest := Join(fields[1..], ':');
      assert ToUpperAll(fields[0] + [':'] + rest) == ToUpperAll(fields[0]) + [':'] + ToUpperAll(rest);
    }
  }

  /** Parsing text of the documented form and printing it gives the text back in upper case, so two
      texts name one address exactly when they differ in case alone. */
  lemma TextRoundTrip(text: string)
    requires IsDocumentedForm(text)
    ensures AddressOf(text).Some?
    ensures FormatAddress(AddressOf(text).value) == ToUpperAll(text)
  {
    var octets := Split(text, ':');
    JoinSplit(text, ':');
    forall i | 0 <= i < 6
      ensures ParseOctet(octets[i]).Some?
      ensures OctetText(ParseOctet(octets[i]).value) == ToUpperAll(octets[i])
    {
      assert octets[i] in octets;
      OctetRoundTrip(octets[i]);
    }
    var a := AddressOf(text).value;
    assert seq(6, i requires 0 <= i < 6 => OctetText(a[i])) == seq(6, i requires 0 <= i < 6 => ToUpperAll(octets[i]));
    ToUpperJoin(octets);
  }

  lemma HexDigitPrintsBack(c: char)
    requires IsHex(c)
    ensures HexValue(c) < 16 && HexChar(HexValue(c)) == ToUpper(c)
  {
  }

  lemma TwoDigits(high: nat, low: nat)
    requires high < 16 && low < 16
    ensures (16 * high + low) / 16 == high && (16 * high + low) % 16 == low
  {
  }

  lemma DigitsRoundTrip(octet: string)
    requires |octet| == 2 && IsHex(octet[0]) && IsHex(octet[1])
    ensures ParseOctet(octet).Some?
    ensures OctetText(ParseOctet(octet).value) == ToUpperAll(octet)
  {
    HexDigitPrintsBack(octet[0]);
    HexDigitPrintsBack(octet[1]);
    TwoDigits(HexValue(octet[0]), HexValue(octet[1]));
  }

  lemma OctetRoundTrip(octet: string)
    requires IsHexPair(octet)
    ensures ParseOctet(octet).Some?
    ensures OctetText(ParseOctet(octet).value) == ToUpperAll(octet)
  {
    HexDigits(octet[0]);
    HexDigits(octet[1]);
    DigitsRoundTrip(octet);
  }

  lemma OctetForms(octet: string)
    ensures IsHexPair(octet) <==> ParseOctet(octet).Some? && '+' !in octet
  {
    if |octet| == 2 {
      HexDigits(octet[0]);
      HexDigits(octet[1]);
    }
    if ParseOctet(octet).Some? {
      assert octet[0] in octet;
    }
  }

  lemma AllOctets(octets: seq<string>)
    ensures (forall o | o in octets :: IsHexPair(o)) <==>
            (forall i | 0 <= i < |octets| :: ParseOctet(octets[i]).Some?) && !exists o | o in octets :: '+' in o
  {
    forall o
      ensures IsHexPair(o) <==> ParseOctet(o).Some? && '+' !in o
    {
      OctetForms(o);
    }
  }

  /** The parser accepts more than it documents, and the plus sign is the whole difference. */
  lemma AcceptsTheDocumentedFormAndPlusSigns(text: string)
    ensures IsDocumentedForm(text) <==> AddressOf(text).Some? && '+' !in text
  {
    var octets := Split(text, ':');
    JoinSplit(text, ':');
    CharsOfJoin(octets, ':', '+');
    AllOctets(octets);
  }

  lemma {:induction false} CharsOfJoin(fields: seq<string>, sep: char, c: char)
    requires |fields| > 0 && c != sep
    ensures c in Join(fields, sep) <==> exists f | f in fields :: c in f
  {
    if |fields| > 1 {
      CharsOfJoin(fields[1..], sep, c);
      assert fields == [fields[0]] + fields[1..];
    } else {
      assert fields[0] in fields;
    }
  }

  /** "+a:00:00:00:00:00" is accepted. */
  lemma PlusSignIsAccepted()
    ensures var text := Join(["+a", "00", "00", "00", "00", "00"], ':');
            AddressOf(text) == Some([10, 0, 0, 0, 0, 0]) && !IsDocumentedForm(text)
  {
    var octets := ["+a", "00", "00", "00", "00", "00"];
    SplitJoin(octets, ':');
    HexDigits(octets[0][0]);
    assert !IsHexPair(octets[0]) && octets[0] in octets;
    assert AddressOf(Join(octets, ':')).value == [10, 0, 0, 0, 0, 0];
  }
}
