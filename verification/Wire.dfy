/** The control-socket protocol: what the daemon prints and what clients read back
    (crates/protocol/src/wire.rs, crates/daemon/src/control.rs, crates/cli/src/client.rs). */
module Wire {
  import opened Prelude
  import opened Text
  import Numerals
  import Evidence
  import Advertisements
  import Presence
  import Quorum

  const RESP_ALLOW := "ALLOW\n"
  const RESP_END := "END\n"

  const MIN_I16 := -32_768
  const MAX_I16 := 32_767

  predicate IsGraphic(c: char) {
    '!' <= c <= '~'
  }

  function Token(reason: Evidence.Reason): string {
    match reason
    case Protocol => "protocol"
    case NoDevice => "no-device"
    case Stale => "stale"
    case InsufficientSamples => "insufficient-samples"
    case DeviceLocked => "device-locked"
    case MultiDeviceAuth => "multi-device-auth"
  }

  /** Every refusal token is one short word of graphic characters. */
  lemma TokensAreWords(reason: Evidence.Reason)
    ensures Token(reason) != "" && |Token(reason)| <= 20
    ensures forall c | c in Token(reason) :: IsGraphic(c)
    ensures IsToken(Token(reason))
  {
    match reason {
      case Protocol =>
      case NoDevice =>
      case Stale =>
      case InsufficientSamples =>
      case DeviceLocked =>
      case MultiDeviceAuth =>
    }
  }

  /** The tokens of the protocol. */
  lemma TheTokens()
    ensures Token(Evidence.Protocol) == "protocol" && Token(Evidence.NoDevice) == "no-device"
    ensures Token(Evidence.Stale) == "stale" && Token(Evidence.InsufficientSamples) == "insufficient-samples"
    ensures Token(Evidence.DeviceLocked) == "device-locked" && Token(Evidence.MultiDeviceAuth) == "multi-device-auth"
  {
  }

  /** No two reasons share a token, so the reader knows which one was given. */
  lemma TokensDiffer(a: Evidence.Reason, b: Evidence.Reason)
    ensures Token(a) == Token(b) ==> a == b
  {
    assert Token(a) == Token(b) ==> |Token(a)| == |Token(b)| && Token(a)[0] == Token(b)[0];
  }

  function DecisionText(d: Evidence.Decision): string {
    match d
    case Allow => "ALLOW"
    case Deny(reason) => "DENY " + Token(reason)
  }

  function Render(d: Evidence.Decision): string {
    DecisionText(d) + "\n"
  }

  function RssiText(rssi: Option<int>): string {
    if rssi.Some? then Numerals.PrintSigned(rssi.value) else "-"
  }

  function RssiField(rssi: Option<int>): (r: string)
    ensures IsToken(r)
  {
    "rssi=" + RssiText(rssi)
  }

  function Spaced(first: string, rest: string): string {
    first + " " + rest
  }

  function RowTail(row: Presence.DeviceStatus): string {
    Spaced(row.profile.Id(), Spaced(DecisionText(row.decision), RssiField(row.rssi)))
  }

  /** One `STATUS` row: `DEVICE <id> <profile> <ALLOW|DENY reason> rssi=<dbm|->`. */
  function DeviceStatusLine(row: Presence.DeviceStatus): string {
    Spaced("DEVICE", Spaced(row.id, RowTail(row))) + "\n"
  }

  datatype DeviceRow = DeviceRow(id: string, profile: string, allowed: bool, reason: Option<string>, rssi: Option<int>)

  datatype Aggregate = AllowLine | DenyLine(reason: string)

  function StripNewline(line: string): string {
    if line != "" && line[|line| - 1] == '\n' then line[..|line| - 1] else line
  }

  function ParseRssi(field: string): Option<Option<int>> {
    var text := StripPrefix(field, "rssi=");
    if text.None? then None
    else if text.value == "-" then Some(None)
    else
      var n := Numerals.ParseSigned(text.value, MIN_I16, MAX_I16);
      if n.Some? then Some(Some(n.value)) else None
  }

  function ParseDeviceStatus(line: string): Option<DeviceRow> {
    ParseFields(Tokens(StripNewline(line)))
  }

  function ParseFields(fields: seq<string>): (r: Option<DeviceRow>)
    ensures r.Some? ==> r.value.id in fields
  {
    if |fields| < 4 || fields[0] != "DEVICE" then None
    else if fields[3] == "ALLOW" && |fields| == 5 then
      var rssi := ParseRssi(fields[4]);
      if rssi.Some? then Some(DeviceRow(fields[1], fields[2], true, None, rssi.value)) else None
    else if fields[3] == "DENY" && |fields| == 6 then
      var rssi := ParseRssi(fields[5]);
      if rssi.Some? then Some(DeviceRow(fields[1], fields[2], false, Some(fields[4]), rssi.value)) else None
    else None
  }

  function ParseDecision(line: string): Option<Aggregate> {
    ParseAggregate(Tokens(StripNewline(line)))
  }

  function ParseAggregate(fields: seq<string>): Option<Aggregate> {
    if |fields| == 1 && fields[0] == "ALLOW" then Some(AllowLine)
    else if |fields| == 2 && fields[0] == "DENY" then Some(DenyLine(fields[1]))
    else None
  }

  /** No line is both a device row and an aggregate. */
  lemma RowsAreNotAggregates(line: string)
    ensures ParseDeviceStatus(line).None? || ParseDecision(line).None?
  {
  }

  // ---------------------------------------------------------------------
  // One line
  // ---------------------------------------------------------------------

  /** What a client should read from a row. */
  function RowOf(row: Presence.DeviceStatus): DeviceRow {
    DeviceRow(row.id, row.profile.Id(), row.decision.Allow?,
              if row.decision.Allow? then None else Some(Token(row.decision.reason)), row.rssi)
  }

  function AggregateOf(d: Evidence.Decision): Aggregate {
    match d
    case Allow => AllowLine
    case Deny(reason) => DenyLine(Token(reason))
  }

  predicate RssiInRange(rssi: Option<int>) {
    rssi.Some? ==> -32_768 <= rssi.value <= 32_767
  }

  /** An RSSI reads back exactly when it is in the range of the type, or there is none. */
  lemma RssiRoundTrip(rssi: Option<int>)
    ensures ParseRssi(RssiField(rssi)) == Some(rssi) <==> RssiInRange(rssi)
  {
    var field, text := RssiField(rssi), RssiText(rssi);
    assert field[5..] == text;
    if rssi.Some? {
      Numerals.SignedReads(rssi.value, MIN_I16, MAX_I16);
      Numerals.SignOfPrinted(rssi.value);
    }
  }

  function RowFields(row: Presence.DeviceStatus): seq<string> {
    ["DEVICE", row.id, row.profile.Id()] + DecisionFields(row.decision) + [RssiField(row.rssi)]
  }

  function DecisionFields(d: Evidence.Decision): seq<string> {
    match d
    case Allow => ["ALLOW"]
    case Deny(reason) => ["DENY", Token(reason)]
  }

  lemma JoinCons(first: string, rest: seq<string>)
    requires rest != []
    ensures Join([first] + rest, ' ') == Spaced(first, Join(rest, ' '))
  {
    assert ([first] + rest)[1..] == rest;
  }

  lemma DecisionAndRssi(d: Evidence.Decision, last: string)
    ensures Join(DecisionFields(d) + [last], ' ') == Spaced(DecisionText(d), last)
  {
    match d {
      case Allow =>
        JoinCons("ALLOW", [last]);
      case Deny(reason) =>
        var token := Token(reason);
        assert DecisionFields(d) + [last] == ["DENY"] + ([token] + [last]);
        JoinCons(token, [last]);
        JoinCons("DENY", [token] + [last]);
        assert "DENY" + " " + (token + " " + last) == ("DENY " + token) + " " + last;
    }
  }

  lemma LineIsJoinedFields(row: Presence.DeviceStatus)
    ensures DeviceStatusLine(row) == Join(RowFields(row), ' ') + "\n"
  {
    var tail := DecisionFields(row.decision) + [RssiField(row.rssi)];
    DecisionAndRssi(row.decision, RssiField(row.rssi));
    JoinCons(row.profile.Id(), tail);
    JoinCons(row.id, [row.profile.Id()] + tail);
    JoinCons("DEVICE", [row.id] + ([row.profile.Id()] + tail));
    assert RowFields(row) == ["DEVICE"] + ([row.id] + ([row.profile.Id()] + tail));
  }

  lemma ProfileIdIsToken(profile: Advertisements.Profile)
    ensures IsToken(profile.Id())
  {
  }

  lemma {:induction false} CharsOfTokens(ts: seq<string>)
    requires ts != [] && forall t | t in ts :: IsToken(t)
    ensures '\n' !in Join(ts, ' ') && '\r' !in Join(ts, ' ')
  {
    assert ts[0] in ts;
    if |ts| > 1 {
      CharsOfTokens(ts[1..]);
    }
  }

  lemma FieldsParse(row: Presence.DeviceStatus)
    requires RssiInRange(row.rssi)
    ensures ParseFields(RowFields(row)) == Some(RowOf(row))
  {
    RssiRoundTrip(row.rssi);
    var fields := RowFields(row);
    assert fields[0] == "DEVICE" && fields[1] == row.id && fields[2] == row.profile.Id();
    match row.decision {
      case Allow => assert fields[3] == "ALLOW";
      case Deny(reason) => assert fields[3] == "DENY" && fields[4] == Token(reason);
    }
  }

  lemma DecisionFieldsAreTokens(d: Evidence.Decision)
    ensures forall t | t in DecisionFields(d) :: IsToken(t)
  {
    if d.Deny? {
      TokensAreWords(d.reason);
    }
  }

  lemma FieldsAreTokens(row: Presence.DeviceStatus)
    requires IsToken(row.id)
    ensures forall t | t in RowFields(row) :: IsToken(t)
  {
    ProfileIdIsToken(row.profile);
    DecisionFieldsAreTokens(row.decision);
  }

  lemma StripTerminated(line: string)
    requires '\n' !in line
    ensures StripNewline(line + "\n") == line && StripNewline(line) == line
  {
    if line != "" {
      assert line[|line| - 1] in line;
    }
  }

  /** The printed row is one line holding the row's fields. */
  lemma RowLine(row: Presence.DeviceStatus)
    requires IsToken(row.id)
    ensures var line := Join(RowFields(row), ' ');
            && DeviceStatusLine(row) == line + "\n"
            && '\n' !in line && '\r' !in line
            && StripNewline(line + "\n") == StripNewline(line) == line
            && Tokens(line) == RowFields(row)
  {
    FieldsAreTokens(row);
    LineIsJoinedFields(row);
    TokensOfJoin(RowFields(row));
    CharsOfTokens(RowFields(row));
    StripTerminated(Join(RowFields(row), ' '));
  }

  /** A row reads back as itself exactly when the device's id is one token. Configuration does not ask
      for that. */
  lemma RowRoundTrip(row: Presence.DeviceStatus)
    requires RssiInRange(row.rssi)
    ensures IsToken(row.id) <==> ParseDeviceStatus(DeviceStatusLine(row)) == Some(RowOf(row))
    ensures IsToken(row.id) ==> ParseDeviceStatus(StripNewline(DeviceStatusLine(row))) == Some(RowOf(row))
  {
    if IsToken(row.id) {
      RowLine(row);
      FieldsParse(row);
    }
  }

  /** The decision's text is one line holding the decision's fields. */
  lemma DecisionLine(d: Evidence.Decision)
    ensures Join(DecisionFields(d), ' ') == DecisionText(d)
    ensures Tokens(DecisionText(d)) == DecisionFields(d)
    ensures '\n' !in DecisionText(d) && '\r' !in DecisionText(d)
  {
    DecisionFieldsAreTokens(d);
    if d.Deny? {
      assert DecisionFields(d) == ["DENY"] + [Token(d.reason)];
      JoinCons("DENY", [Token(d.reason)]);
    }
    TokensOfJoin(DecisionFields(d));
    CharsOfTokens(DecisionFields(d));
  }

  lemma AggregateRoundTrip(d: Evidence.Decision)
    ensures ParseDecision(Render(d)) == Some(AggregateOf(d))
    ensures ParseDecision(DecisionText(d)) == Some(AggregateOf(d))
    ensures ParseDeviceStatus(DecisionText(d)).None?
    ensures '\n' !in DecisionText(d) && '\r' !in DecisionText(d) && DecisionText(d) != "END"
  {
    DecisionLine(d);
    StripTerminated(DecisionText(d));
    DecisionFieldsParse(d);
    assert DecisionText(d)[0] != 'E';
  }

  lemma DecisionFieldsParse(d: Evidence.Decision)
    ensures ParseAggregate(DecisionFields(d)) == Some(AggregateOf(d))
    ensures ParseFields(DecisionFields(d)).None?
  {
  }

  // ---------------------------------------------------------------------
  // The whole response
  // ---------------------------------------------------------------------

  function Concat(lines: seq<string>): string {
    if lines == [] then "" else Concat(lines[..|lines| - 1]) + lines[|lines| - 1]
  }

  function RowLines(rows: seq<Presence.DeviceStatus>): seq<string> {
    seq(|rows|, i requires 0 <= i < |rows| => DeviceStatusLine(rows[i]))
  }

  /** A row per device in order, the aggregate, and the terminator. */
  function StatusResponse(rows: seq<Presence.DeviceStatus>, d: Evidence.Decision): string {
    Concat(RowLines(rows)) + Render(d) + RESP_END
  }

  /** The daemon's answer to `STATUS`, decided and reported at one clock reading. */
  method Status(fleet: Presence.Fleet, now: nat) returns (response: string)
    requires fleet.Valid()
    ensures response == StatusResponse(Presence.StatusRows(fleet.Specs(), fleet.history, now),
                                       Presence.FleetVerdict(fleet.Specs(), fleet.multiDeviceAuth, fleet.history, now))
  {
    var rows := fleet.Report(now);
    response := PrintRows(rows);
    var decision := fleet.Check(now);
    response := response + Render(decision);
    response := response + RESP_END;
  }

  /** The loop over the report, appending a line per row. */
  method PrintRows(rows: seq<Presence.DeviceStatus>) returns (response: string)
    ensures response == Concat(RowLines(rows))
  {
    response := "";
    for n := 0 to |rows|
      invariant response == Concat(RowLines(rows)[..n])
    {
      assert RowLines(rows)[..n + 1][..n] == RowLines(rows)[..n];
      response := response + DeviceStatusLine(rows[n]);
    }
    assert RowLines(rows)[..|rows|] == RowLines(rows);
  }

  /** `BufRead::lines`: what precedes each newline, less a carriage return before it, and a last
      unterminated line if there is one. */
  function Lines(s: string): seq<string> {
    var parts := Split(s, '\n');
    var terminated := seq(|parts| - 1, i requires 0 <= i < |parts| - 1 => StripCarriageReturn(parts[i]));
    if parts[|parts| - 1] == "" then terminated else terminated + [parts[|parts| - 1]]
  }

  function StripCarriageReturn(line: string): string {
    if line != "" && line[|line| - 1] == '\r' then line[..|line| - 1] else line
  }

  /** The lines before the terminator, or None when the connection closes first. */
  function UntilEnd(lines: seq<string>): Option<seq<string>> {
    if lines == [] then None
    else if lines[0] == "END" then Some([])
    else
      var rest := UntilEnd(lines[1..]);
      if rest.Some? then Some([lines[0]] + rest.value) else None
  }

  /** The client's read loop over everything the daemon sends before closing. */
  method RequestLines(stream: string) returns (r: Option<seq<string>>)
    ensures r == UntilEnd(Lines(stream))
  {
    var incoming := Lines(stream);
    var lines: seq<string> := [];
    ghost var answer := UntilEnd(incoming);
    assert incoming[0..] == incoming;
    assert answer.Some? ==> lines + answer.value == answer.value;
    for n := 0 to |incoming|
      invariant lines == incoming[..n]
      invariant answer ==
                var rest := UntilEnd(incoming[n..]);
                if rest.Some? then Some(lines + rest.value) else None
    {
      var line := incoming[n];
      assert incoming[n..][1..] == incoming[n + 1..];
      if line == "END" {
        assert lines + [] == lines;
        return Some(lines);
      }
      ghost var rest := UntilEnd(incoming[n + 1..]);
      if rest.Some? {
        assert lines + ([line] + rest.value) == (lines + [line]) + rest.value;
      }
      lines := lines + [line];
    }
    r := None;
  }

  /** The rows a client shows: every line that parses as one. */
  function RowsIn(lines: seq<string>): seq<DeviceRow> {
    if lines == [] then []
    else
      var row := ParseDeviceStatus(lines[|lines| - 1]);
      RowsIn(lines[..|lines| - 1]) + (if row.Some? then [row.value] else [])
  }

  /** The aggregate a client shows: the last line that parses as one. */
  function AggregateIn(lines: seq<string>): Option<Aggregate> {
    if lines == [] then None
    else
      var aggregate := ParseDecision(lines[|lines| - 1]);
      if aggregate.Some? then aggregate else AggregateIn(lines[..|lines| - 1])
  }

  predicate IsAggregate(line: string) {
    ParseDecision(line).Some?
  }

  /** There is an aggregate to show exactly when some line is one. */
  lemma {:induction false} SomeAggregate(lines: seq<string>)
    ensures AggregateIn(lines).Some? <==> exists l :: l in lines && IsAggregate(l)
  {
    if lines != [] {
      var front, last := lines[..|lines| - 1], lines[|lines| - 1];
      SomeAggregate(front);
      assert lines == front + [last];
      assert IsAggregate(last) <==> ParseDecision(last).Some?;
    }
  }

  lemma AggregateStep(lines: seq<string>)
    requires lines != []
    ensures var last := lines[|lines| - 1];
            && (IsAggregate(last) ==> AggregateIn(lines) == ParseDecision(last))
            && (!IsAggregate(last) ==> AggregateIn(lines) == AggregateIn(lines[..|lines| - 1]))
  {
  }

  /** What a client that looks for the last aggregate finds. */
  ghost predicate IsLastAggregate(lines: seq<string>, i: nat) {
    && i < |lines| && IsAggregate(lines[i])
    && forall j | i < j < |lines| :: !IsAggregate(lines[j])
  }

  /** And it is that of the last such line. */
  lemma {:induction false} AggregateIsTheLast(lines: seq<string>, i: nat)
    requires IsLastAggregate(lines, i)
    ensures AggregateIn(lines) == ParseDecision(lines[i])
    decreases |lines|
  {
    AggregateStep(lines);
    if i < |lines| - 1 {
      var front := lines[..|lines| - 1];
      assert forall j | 0 <= j < |front| :: front[j] == lines[j];
      AggregateIsTheLast(front, i);
    }
  }

  // ---------------------------------------------------------------------
  // Round trip
  // ---------------------------------------------------------------------

  /** Text a line can carry through the framing unchanged. */
  predicate IsFramable(line: string) {
    '\n' !in line && '\r' !in line && line != "END"
  }

  function Terminated(lines: seq<string>): seq<string> {
    seq(|lines|, i requires 0 <= i < |lines| => lines[i] + "\n")
  }

  lemma ShiftLine(before: string, line: string, tail: string)
    ensures before + (line + "\n") + tail == before + (line + ['\n'] + tail)
  {
  }

  lemma SplitOneMore(front: seq<string>, line: string, tail: string)
    requires '\n' !in line
    requires var rest := line + ['\n'] + tail; Split(Concat(Terminated(front)) + rest, '\n') == front + Split(rest, '\n')
    ensures Split(Concat(Terminated(front + [line])) + tail, '\n') == (front + [line]) + Split(tail, '\n')
  {
    TerminatedAppend(front, line);
    ShiftLine(Concat(Terminated(front)), line, tail);
    SplitFirst(line, tail, '\n');
    assert front + ([line] + Split(tail, '\n')) == (front + [line]) + Split(tail, '\n');
  }

  lemma {:induction false} SplitTerminated(lines: seq<string>, tail: string)
    requires forall l | l in lines :: '\n' !in l
    ensures Split(Concat(Terminated(lines)) + tail, '\n') == lines + Split(tail, '\n')
    decreases |lines|
  {
    if lines == [] {
      assert Concat(Terminated(lines)) + tail == tail;
    } else {
      var front, last := lines[..|lines| - 1], lines[|lines| - 1];
      SplitTerminated(front, last + ['\n'] + tail);
      SplitOneMore(front, last, tail);
      assert lines == front + [last];
    }
  }

  lemma {:induction false} UntilEndOf(lines: seq<string>)
    requires forall l | l in lines :: l != "END"
    ensures UntilEnd(lines + ["END"]) == Some(lines)
  {
    if lines != [] {
      assert (lines + ["END"])[1..] == lines[1..] + ["END"];
      assert lines[0] in lines && forall l | l in lines[1..] :: l in lines;
      assert [lines[0]] + lines[1..] == lines;
      UntilEndOf(lines[1..]);
    }
  }

  /** What lines a stream holds: those its newlines end, less a carriage return before the newline, and a
      last one that none ends. */
  lemma LinesRead(lines: seq<string>, last: string)
    requires forall l | l in lines :: '\n' !in l
    requires '\n' !in last
    ensures var all := Lines(Concat(Terminated(lines)) + last);
            && |all| == |lines| + (if last == "" then 0 else 1)
            && (forall i | 0 <= i < |lines| :: all[i] == StripCarriageReturn(lines[i]))
            && (last != "" ==> all[|lines|] == last)
  {
    SplitTerminated(lines, last);
    SplitWhole(last, '\n');
    assert Split(Concat(Terminated(lines)) + last, '\n') == lines + [last];
  }

  lemma CarriageReturns(line: string)
    ensures StripCarriageReturn(line + "\r") == line
    ensures '\r' !in line ==> StripCarriageReturn(line) == line
  {
    if line != "" {
      assert line[|line| - 1] in line;
    }
  }

  /** Framed lines come back from the wire as they were. */
  lemma FramingRoundTrip(lines: seq<string>)
    requires forall l | l in lines :: IsFramable(l)
    ensures UntilEnd(Lines(Concat(Terminated(lines)) + RESP_END)) == Some(lines)
  {
    var s := Concat(Terminated(lines)) + RESP_END;
    SplitTerminated(lines, RESP_END);
    assert RESP_END == "END" + ['\n'] + "";
    SplitFirst("END", "", '\n');
    var parts := Split(s, '\n');
    assert parts == lines + ["END", ""];
    var all := lines + ["END"];
    assert Lines(s) == all by {
      forall i | 0 <= i < |parts| - 1
        ensures StripCarriageReturn(parts[i]) == all[i]
      {
        if i < |lines| {
          assert lines[i] in lines;
          if lines[i] != "" {
            assert lines[i][|lines[i]| - 1] in lines[i];
          }
        }
      }
    }
    UntilEndOf(lines);
  }

  function LineTexts(rows: seq<Presence.DeviceStatus>): seq<string> {
    seq(|rows|, i requires 0 <= i < |rows| => StripNewline(DeviceStatusLine(rows[i])))
  }

  ghost predicate Printable(rows: seq<Presence.DeviceStatus>) {
    forall r | r in rows :: IsToken(r.id) && RssiInRange(r.rssi)
  }

  lemma RowLineIsFramable(row: Presence.DeviceStatus)
    requires IsToken(row.id) && RssiInRange(row.rssi)
    ensures var line := StripNewline(DeviceStatusLine(row));
            && IsFramable(line) && DeviceStatusLine(row) == line + "\n"
            && ParseDeviceStatus(line) == Some(RowOf(row)) && ParseDecision(line).None?
  {
    RowLine(row);
    FieldsParse(row);
    RowsAreNotAggregates(Join(RowFields(row), ' '));
    assert DeviceStatusLine(row)[0] == 'D';
  }

  lemma {:induction false} RowsInAll(lines: seq<string>, rows: seq<DeviceRow>)
    requires |lines| == |rows|
    requires forall i | 0 <= i < |lines| :: ParseDeviceStatus(lines[i]) == Some(rows[i])
    ensures RowsIn(lines) == rows
  {
    if lines != [] {
      var n := |lines| - 1;
      RowsInAll(lines[..n], rows[..n]);
      assert rows == rows[..n] + [rows[n]];
    }
  }

  lemma RowsInSkip(lines: seq<string>, line: string)
    requires ParseDeviceStatus(line).None?
    ensures RowsIn(lines + [line]) == RowsIn(lines)
  {
    assert (lines + [line])[..|lines|] == lines;
  }

  function RowsOf(rows: seq<Presence.DeviceStatus>): seq<DeviceRow> {
    seq(|rows|, i requires 0 <= i < |rows| => RowOf(rows[i]))
  }

  lemma LinesAreFramable(rows: seq<Presence.DeviceStatus>, i: nat)
    requires Printable(rows) && i < |rows|
    ensures IsFramable(LineTexts(rows)[i]) && DeviceStatusLine(rows[i]) == LineTexts(rows)[i] + "\n"
    ensures ParseDeviceStatus(LineTexts(rows)[i]) == Some(RowsOf(rows)[i])
  {
    assert rows[i] in rows;
    RowLineIsFramable(rows[i]);
  }

  lemma RowLinesAreTerminated(rows: seq<Presence.DeviceStatus>)
    requires Printable(rows)
    ensures RowLines(rows) == Terminated(LineTexts(rows))
  {
    forall i | 0 <= i < |rows|
      ensures RowLines(rows)[i] == Terminated(LineTexts(rows))[i]
    {
      LinesAreFramable(rows, i);
    }
  }

  lemma ResponseIsTerminatedLines(rows: seq<Presence.DeviceStatus>, d: Evidence.Decision)
    requires Printable(rows)
    ensures StatusResponse(rows, d) == Concat(Terminated(LineTexts(rows) + [DecisionText(d)])) + RESP_END
  {
    RowLinesAreTerminated(rows);
    TerminatedAppend(LineTexts(rows), DecisionText(d));
  }

  lemma TerminatedAppend(lines: seq<string>, line: string)
    ensures Concat(Terminated(lines + [line])) == Concat(Terminated(lines)) + (line + "\n")
  {
    assert Terminated(lines + [line])[..|lines|] == Terminated(lines);
  }

  /** Rows with token ids read back in order, with the decision. */
  lemma StatusReadsBack(rows: seq<Presence.DeviceStatus>, d: Evidence.Decision)
    requires Printable(rows)
    ensures var read := UntilEnd(Lines(StatusResponse(rows, d)));
            && read.Some?
            && RowsIn(read.value) == RowsOf(rows)
            && AggregateIn(read.value) == Some(AggregateOf(d))
  {
    var texts := LineTexts(rows);
    var lines := texts + [DecisionText(d)];
    AggregateRoundTrip(d);
    forall l | l in lines
      ensures IsFramable(l)
    {
      if l in texts {
        var i :| 0 <= i < |texts| && l == texts[i];
        LinesAreFramable(rows, i);
      }
    }
    ResponseIsTerminatedLines(rows, d);
    FramingRoundTrip(lines);
    forall i | 0 <= i < |rows|
      ensures ParseDeviceStatus(texts[i]) == Some(RowsOf(rows)[i])
    {
      LinesAreFramable(rows, i);
    }
    RowsInAll(texts, RowsOf(rows));
    RowsInSkip(texts, DecisionText(d));
  }

  /** What a client reads has token ids, whatever was sent. */
  lemma {:induction false} ReadIdsAreTokens(lines: seq<string>)
    ensures forall r | r in RowsIn(lines) :: IsToken(r.id)
  {
    if lines != [] {
      ReadIdsAreTokens(lines[..|lines| - 1]);
    }
  }

  /** Main result: printing a status response, framing it, reading it back by lines and parsing yields the
      report in order exactly when every id is a token, and then the decision too. */
  lemma StatusRoundTrip(rows: seq<Presence.DeviceStatus>, d: Evidence.Decision)
    requires forall r | r in rows :: RssiInRange(r.rssi)
    ensures var read := UntilEnd(Lines(StatusResponse(rows, d)));
            (read.Some? && RowsIn(read.value) == RowsOf(rows)) <==> forall r | r in rows :: IsToken(r.id)
    ensures (forall r | r in rows :: IsToken(r.id)) ==>
              AggregateIn(UntilEnd(Lines(StatusResponse(rows, d))).value) == Some(AggregateOf(d))
  {
    var read := UntilEnd(Lines(StatusResponse(rows, d)));
    if forall r | r in rows :: IsToken(r.id) {
      StatusReadsBack(rows, d);
    } else if read.Some? {
      ReadIdsAreTokens(read.value);
      var r :| r in rows && !IsToken(r.id);
      RowOfIsAmongRows(rows, r);
    }
  }

  lemma RowOfIsAmongRows(rows: seq<Presence.DeviceStatus>, r: Presence.DeviceStatus)
    requires r in rows
    ensures RowOf(r) in RowsOf(rows)
  {
    var i :| 0 <= i < |rows| && rows[i] == r;
    assert RowsOf(rows)[i] == RowOf(r);
  }

  // ---------------------------------------------------------------------
  // Ids that are not tokens
  // ---------------------------------------------------------------------

  /** The row `b` under an id that spells out row `a` and starts a second line. */
  function Forging(a: Presence.DeviceStatus, b: Presence.DeviceStatus): Presence.DeviceStatus {
    b.(id := Spaced(a.id, RowTail(a)) + "\n" + Spaced("DEVICE", b.id))
  }

  lemma TwoLines(device: string, x: string, y: string, tail: string)
    ensures Spaced(device, Spaced(x + "\n" + Spaced(device, y), tail)) + "\n" ==
            (Spaced(device, x) + "\n") + (Spaced(device, Spaced(y, tail)) + "\n")
  {
    var e := Spaced(x + "\n" + Spaced(device, y), tail);
    assert e == x + ("\n" + Spaced(device, y) + " " + tail);
    assert Spaced(device, y) + " " + tail == Spaced(device, Spaced(y, tail));
  }

  /** An id with a newline in it can forge rows: the response for one such device is, character for
      character, that for two others. */
  lemma AnIdCanForgeRows(a: Presence.DeviceStatus, b: Presence.DeviceStatus, d: Evidence.Decision)
    requires Printable([a, b])
    ensures StatusResponse([Forging(a, b)], d) == StatusResponse([a, b], d)
    ensures var read := UntilEnd(Lines(StatusResponse([Forging(a, b)], d))); read.Some? && RowsIn(read.value) == RowsOf([a, b])
  {
    ForgedLine(a, b);
    OneRow(Forging(a, b));
    TwoRows(a, b);
    StatusReadsBack([a, b], d);
  }

  lemma ForgedLine(a: Presence.DeviceStatus, b: Presence.DeviceStatus)
    ensures DeviceStatusLine(Forging(a, b)) == DeviceStatusLine(a) + DeviceStatusLine(b)
  {
    TwoLines("DEVICE", Spaced(a.id, RowTail(a)), b.id, RowTail(b));
  }

  lemma OneRow(a: Presence.DeviceStatus)
    ensures Concat(RowLines([a])) == DeviceStatusLine(a)
  {
    assert RowLines([a]) == [] + [DeviceStatusLine(a)];
    ConcatAppend([], DeviceStatusLine(a));
  }

  lemma TwoRows(a: Presence.DeviceStatus, b: Presence.DeviceStatus)
    ensures Concat(RowLines([a, b])) == DeviceStatusLine(a) + DeviceStatusLine(b)
  {
    OneRow(a);
    assert RowLines([a, b]) == RowLines([a]) + [DeviceStatusLine(b)];
    ConcatAppend(RowLines([a]), DeviceStatusLine(b));
  }

  lemma ConcatAppend(lines: seq<string>, line: string)
    ensures Concat(lines + [line]) == Concat(lines) + line
  {
    assert (lines + [line])[..|lines|] == lines;
  }

  // ---------------------------------------------------------------------
  // From the fleet to the client
  // ---------------------------------------------------------------------

  /** Every advertisement carried a signal strength a transport can report. */
  ghost predicate MeasuredInRange(h: seq<Presence.FleetEvent>) {
    forall e | e in h && e.Advertised? :: -32_768 <= e.ad.rssi <= 32_767
  }

  lemma {:induction false} LastRssiWasHeard(spec: Presence.DeviceSpec, h: seq<Presence.FleetEvent>)
    requires MeasuredInRange(h)
    ensures RssiInRange(Evidence.Replay(Presence.DeviceHistory(spec, h), spec.policy).lastRssi)
  {
    if h != [] {
      var front, e := h[..|h| - 1], h[|h| - 1];
      assert e in h && forall x | x in front :: x in h;
      LastRssiWasHeard(spec, front);
      var dh := Presence.DeviceHistory(spec, h);
      if Presence.DeviceEvent(spec, e).Some? {
        assert dh[..|dh| - 1] == Presence.DeviceHistory(spec, front);
      }
    }
  }

  lemma ReportIsInRange(specs: seq<Presence.DeviceSpec>, h: seq<Presence.FleetEvent>, now: nat)
    requires MeasuredInRange(h)
    ensures forall r | r in Presence.StatusRows(specs, h, now) :: RssiInRange(r.rssi)
  {
    forall i | 0 <= i < |specs|
      ensures RssiInRange(Presence.StatusOf(specs[i], h, now).rssi)
    {
      LastRssiWasHeard(specs[i], h);
    }
  }

  /** Whatever a fleet was told, a client reading its status response sees every device's id, profile,
      verdict, reason and RSSI in configured order exactly when every configured id is a token, and then
      the fleet's verdict too. */
  lemma ClientSeesTheVerdicts(specs: seq<Presence.DeviceSpec>, rule: Quorum.MultiDeviceAuth, h: seq<Presence.FleetEvent>, now: nat)
    requires MeasuredInRange(h)
    ensures var verdict := Presence.FleetVerdict(specs, rule, h, now);
            var rows := Presence.StatusRows(specs, h, now);
            var read := UntilEnd(Lines(StatusResponse(rows, verdict)));
            && ((read.Some? && RowsIn(read.value) == RowsOf(rows)) <==> forall i | 0 <= i < |specs| :: IsToken(specs[i].id))
            && ((forall i | 0 <= i < |specs| :: IsToken(specs[i].id)) ==> AggregateIn(read.value) == Some(AggregateOf(verdict)))
  {
    var rows := Presence.StatusRows(specs, h, now);
    ReportIsInRange(specs, h, now);
    assert forall i | 0 <= i < |specs| :: rows[i].id == specs[i].id && rows[i] in rows;
    StatusRoundTrip(rows, Presence.FleetVerdict(specs, rule, h, now));
  }
}
