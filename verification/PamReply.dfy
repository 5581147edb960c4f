/** How the PAM module reads the daemon's reply from a stream that may deliver it in any pieces
    (crates/pam/src/lib.rs). Each byte is a character. */
module PamReply {
  import opened Prelude
  import Evidence
  import Wire

  const MAX_REPLY_BYTES: nat := 64

  datatype Reply = Allow | Deny

  datatype PamCode = Success | AuthErr | AuthinfoUnavail

  /** What one wait-and-read attempt yields. `Data` is what the kernel has; a read takes as much of it as fits. */
  datatype ReadOutcome =
    | Data(bytes: string)
    | WouldBlock
    | Failed

  function ParseReply(reply: string): Option<Reply> {
    if reply == Wire.RESP_ALLOW then Some(Allow)
    else if |reply| > 6 && reply[..5] == "DENY " && reply[|reply| - 1] == '\n'
         && forall c | c in reply[5..|reply| - 1] :: Wire.IsGraphic(c) then Some(Deny)
    else None
  }

  /** The exchange's result as PAM sees it. */
  function PamResult(reply: Option<Reply>): PamCode {
    match reply
    case None => AuthinfoUnavail
    case Some(Allow) => Success
    case Some(Deny) => AuthErr
  }

  // ---------------------------------------------------------------------
  // The reader
  // ---------------------------------------------------------------------

  function Fit(bytes: string, used: nat): string
    requires used <= MAX_REPLY_BYTES
  {
    if |bytes| <= MAX_REPLY_BYTES - used then bytes else bytes[..MAX_REPLY_BYTES - used]
  }

  predicate EndsAtFirstNewline(s: string) {
    s != "" && s[|s| - 1] == '\n' && '\n' !in s[..|s| - 1]
  }

  /** What the reader answers when it has `buffered` and the stream has `outcomes` left. */
  function ReplyFrom(buffered: string, outcomes: seq<ReadOutcome>): Option<Reply>
    requires |buffered| < MAX_REPLY_BYTES
    decreases |outcomes|
  {
    if outcomes == [] then None
    else
      match outcomes[0]
      case Failed => None
      case WouldBlock => ReplyFrom(buffered, outcomes[1..])
      case Data(bytes) =>
        if bytes == "" then None
        else
          var now := buffered + Fit(bytes, |buffered|);
          if '\n' in now then
            if EndsAtFirstNewline(now) then ParseReply(now) else None
          else if |now| == MAX_REPLY_BYTES then None
          else ReplyFrom(now, outcomes[1..])
  }

  /** The position of the first newline among the first `used` bytes. */
  method FindNewline(reply: array<char>, used: nat) returns (r: Option<nat>)
    requires used <= reply.Length
    ensures r.None? <==> '\n' !in reply[..used]
    ensures r.Some? ==> r.value < used && reply[r.value] == '\n' && '\n' !in reply[..r.value]
  {
    for i := 0 to used
      invariant '\n' !in reply[..i]
    {
      if reply[i] == '\n' {
        assert reply[..used][i] == '\n';
        return Some(i);
      }
      assert reply[..i + 1] == reply[..i] + [reply[i]];
    }
    r := None;
  }

  /** A read of what is available into the free part of the buffer. */
  method Receive(reply: array<char>, used: nat, bytes: string) returns (now: nat)
    requires used <= MAX_REPLY_BYTES == reply.Length
    modifies reply
    ensures now == used + |Fit(bytes, used)| <= reply.Length
    ensures reply[..now] == old(reply[..used]) + Fit(bytes, used)
  {
    var read := Fit(bytes, used);
    forall i | 0 <= i < |read| {
      reply[used + i] := read[i];
    }
    now := used + |read|;
  }

  /** What the reader answers once a newline stands in the buffer. */
  lemma NewlineDecides(buffered: string, newline: nat)
    requires newline < |buffered| && buffered[newline] == '\n' && '\n' !in buffered[..newline]
    ensures '\n' in buffered
    ensures EndsAtFirstNewline(buffered) <==> newline + 1 == |buffered|
  {
    assert newline + 1 < |buffered| ==> buffered[..|buffered| - 1][newline] == '\n';
  }

  /** The source's read loop over its fixed buffer. Every index it uses is inside the 64 bytes. */
  method ReadReply(outcomes: seq<ReadOutcome>) returns (r: Option<Reply>)
    ensures r == ReplyFrom("", outcomes)
  {
    var reply := new char[MAX_REPLY_BYTES];
    var used: nat := 0;
    assert reply[..0] == "" && outcomes[0..] == outcomes;
    for n := 0 to |outcomes|
      invariant used < MAX_REPLY_BYTES == reply.Length
      invariant ReplyFrom("", outcomes) == ReplyFrom(reply[..used], outcomes[n..])
    {
      assert outcomes[n..][1..] == outcomes[n + 1..];
      match outcomes[n] {
        case Failed =>
          return None;
        case WouldBlock =>
        case Data(bytes) =>
          if |bytes| == 0 {
            return None;
          }
          used := Receive(reply, used, bytes);
          var newline := FindNewline(reply, used);
          if newline.Some? {
            assert reply[..used][..newline.value] == reply[..newline.value];
            NewlineDecides(reply[..used], newline.value);
            return if newline.value + 1 == used then ParseReply(reply[..used]) else None;
          }
          if used == reply.Length {
            return None;
          }
      }
    }
    r := None;
  }

  // ---------------------------------------------------------------------
  // Splits
  // ---------------------------------------------------------------------

  /** Everything the outcomes deliver. */
  function Delivered(outcomes: seq<ReadOutcome>): string {
    if outcomes == [] then ""
    else (if outcomes[0].Data? then outcomes[0].bytes else "") + Delivered(outcomes[1..])
  }

  /** The outcomes are a reply arriving in pieces, with waits between them. */
  ghost predicate IsArrival(outcomes: seq<ReadOutcome>) {
    forall o | o in outcomes :: !o.Failed? && o != Data("")
  }

  /** What the reader's 64 bytes can hold of the bytes delivered. */
  function Held(bytes: string): string {
    if |bytes| <= 64 then bytes else bytes[..64]
  }

  /** The first `n` outcomes bring in `line`, up to the size of the buffer, with nothing going wrong. */
  ghost predicate BringsIn(buffered: string, outcomes: seq<ReadOutcome>, n: nat, line: string) {
    n <= |outcomes| && IsArrival(outcomes[..n]) && Held(buffered + Delivered(outcomes[..n])) == line
  }

  lemma MoreDelivered(o: ReadOutcome, rest: seq<ReadOutcome>)
    ensures Delivered([o] + rest) == (if o.Data? then o.bytes else "") + Delivered(rest)
  {
    assert ([o] + rest)[1..] == rest;
  }

  lemma HeldInTwo(buffered: string, bytes: string, rest: string)
    requires |buffered| < MAX_REPLY_BYTES
    ensures Held(buffered + bytes) == buffered + Fit(bytes, |buffered|)
    ensures Held(buffered + (bytes + rest)) == Held((buffered + bytes) + rest)
    ensures Held(buffered + bytes) <= Held(buffered + (bytes + rest))
    ensures |buffered + bytes| < MAX_REPLY_BYTES ==> Held(buffered + bytes) == buffered + bytes
  {
    assert buffered + (bytes + rest) == (buffered + bytes) + rest;
  }

  /** One outcome more: what is buffered then, and what the others still bring in. */
  lemma BringsInRest(buffered: string, outcomes: seq<ReadOutcome>, n: nat, line: string)
    requires |buffered| < MAX_REPLY_BYTES && 0 < n && BringsIn(buffered, outcomes, n, line)
    ensures outcomes[0].WouldBlock? ==> BringsIn(buffered, outcomes[1..], n - 1, line)
    ensures outcomes[0].Data? ==>
              var now := buffered + Fit(outcomes[0].bytes, |buffered|);
              && outcomes[0].bytes != "" && now <= line
              && (|now| < MAX_REPLY_BYTES ==> BringsIn(now, outcomes[1..], n - 1, line))
              && (|now| == MAX_REPLY_BYTES ==> now == line)
    ensures !outcomes[0].Failed?
  {
    var o, rest := outcomes[0], outcomes[1..][..n - 1];
    assert outcomes[..n] == [o] + rest;
    assert o in outcomes[..n] && forall p | p in rest :: p in outcomes[..n];
    MoreDelivered(o, rest);
    if o.Data? {
      HeldInTwo(buffered, o.bytes, Delivered(rest));
    } else {
      assert "" + Delivered(rest) == Delivered(rest);
    }
  }

  lemma PrefixOfLine(now: string, line: string)
    requires EndsAtFirstNewline(line) && now <= line
    ensures '\n' in now <==> now == line
  {
    assert forall i | 0 <= i < |line| - 1 :: line[..|line| - 1][i] == line[i];
    assert forall i | 0 <= i < |now| :: now[i] == line[i];
    assert line[|line| - 1] in line;
  }

  lemma NothingYet(buffered: string, outcomes: seq<ReadOutcome>, line: string)
    requires |buffered| < MAX_REPLY_BYTES && BringsIn(buffered, outcomes, 0, line)
    ensures line == buffered && (EndsAtFirstNewline(line) ==> '\n' in buffered)
  {
    assert Delivered(outcomes[..0]) == "" && buffered + "" == buffered;
    assert line != "" ==> line[|line| - 1] in line;
  }

  /** The split of a line into reads and whatever follows it are irrelevant: once it has been brought in
      the reader answers by it. */
  lemma {:induction false} SplitIsIrrelevant(buffered: string, outcomes: seq<ReadOutcome>, n: nat, line: string)
    requires |buffered| < MAX_REPLY_BYTES && '\n' !in buffered
    requires BringsIn(buffered, outcomes, n, line) && EndsAtFirstNewline(line)
    ensures ReplyFrom(buffered, outcomes) == ParseReply(line)
    decreases |outcomes|
  {
    if n == 0 {
      NothingYet(buffered, outcomes, line);
    } else {
      BringsInRest(buffered, outcomes, n, line);
      if outcomes[0].WouldBlock? {
        SplitIsIrrelevant(buffered, outcomes[1..], n - 1, line);
      } else {
        var now := buffered + Fit(outcomes[0].bytes, |buffered|);
        PrefixOfLine(now, line);
        if now != line {
          SplitIsIrrelevant(now, outcomes[1..], n - 1, line);
        }
      }
    }
  }

  /** And when the reader answers at all, it is by a line that was brought in. */
  lemma {:induction false} AnswersByALine(buffered: string, outcomes: seq<ReadOutcome>) returns (n: nat, line: string)
    requires |buffered| < MAX_REPLY_BYTES && ReplyFrom(buffered, outcomes).Some?
    ensures BringsIn(buffered, outcomes, n, line) && EndsAtFirstNewline(line)
    ensures ReplyFrom(buffered, outcomes) == ParseReply(line)
    decreases |outcomes|
  {
    var o := outcomes[0];
    var now := if o.Data? then buffered + Fit(o.bytes, |buffered|) else buffered;
    if o.Data? && '\n' in now {
      n, line := 1, now;
      assert outcomes[..1] == [o] + [];
      MoreDelivered(o, []);
      HeldInTwo(buffered, o.bytes, "");
      assert o.bytes + "" == o.bytes;
    } else {
      var m;
      m, line := AnswersByALine(now, outcomes[1..]);
      n := m + 1;
      BringsInOneMore(buffered, outcomes, m, line, now);
    }
  }

  lemma BringsInOneMore(buffered: string, outcomes: seq<ReadOutcome>, m: nat, line: string, now: string)
    requires |buffered| < MAX_REPLY_BYTES && |now| < MAX_REPLY_BYTES && outcomes != []
    requires !outcomes[0].Failed? && outcomes[0] != Data("")
    requires now == if outcomes[0].Data? then buffered + Fit(outcomes[0].bytes, |buffered|) else buffered
    requires BringsIn(now, outcomes[1..], m, line)
    ensures BringsIn(buffered, outcomes, m + 1, line)
  {
    var o, rest := outcomes[0], outcomes[1..][..m];
    assert outcomes[..m + 1] == [o] + rest;
    MoreDelivered(o, rest);
    if o.Data? {
      HeldInTwo(buffered, o.bytes, Delivered(rest));
      assert now == buffered + o.bytes;
    } else {
      assert "" + Delivered(rest) == Delivered(rest);
    }
  }

  // ---------------------------------------------------------------------
  // What PAM answers
  // ---------------------------------------------------------------------

  /** A refusal line: the word `DENY`, a blank, and one graphic word. */
  ghost predicate IsRefusal(line: string) {
    exists word: string :: word != "" && (forall c | c in word :: '!' <= c <= '~') && line == "DENY " + word + "\n"
  }

  /** Some first stretch of the outcomes brings in the line. */
  ghost predicate Brought(outcomes: seq<ReadOutcome>, line: string) {
    exists n: nat :: BringsIn("", outcomes, n, line)
  }

  lemma RefusalLineParses(word: string)
    requires word != "" && forall c | c in word :: '!' <= c <= '~'
    ensures var line := "DENY " + word + "\n"; ParseReply(line) == Some(Deny) && EndsAtFirstNewline(line)
  {
    var line := "DENY " + word + "\n";
    assert line[5..|line| - 1] == word && line[..5] == "DENY ";
    assert forall c | c in word :: Wire.IsGraphic(c);
    assert line[..|line| - 1] == "DENY " + word;
    assert line[0] == 'D' && Wire.RESP_ALLOW[0] == 'A';
  }

  lemma RefusalLines(line: string)
    ensures ParseReply(line) == Some(Deny) <==> IsRefusal(line)
    ensures IsRefusal(line) ==> EndsAtFirstNewline(line)
  {
    if ParseReply(line) == Some(Deny) {
      var word := line[5..|line| - 1];
      assert line == "DENY " + word + "\n";
      assert forall c | c in word :: Wire.IsGraphic(c);
    }
    if IsRefusal(line) {
      var word: string :| word != "" && (forall c | c in word :: '!' <= c <= '~') && line == "DENY " + word + "\n";
      RefusalLineParses(word);
    }
  }

  lemma AllowLines(line: string)
    ensures ParseReply(line) == Some(Allow) <==> line == "ALLOW\n"
    ensures line == "ALLOW\n" ==> EndsAtFirstNewline(line)
  {
  }

  lemma AnswersWhatIsBrought(outcomes: seq<ReadOutcome>, line: string)
    requires Brought(outcomes, line) && EndsAtFirstNewline(line)
    ensures ReplyFrom("", outcomes) == ParseReply(line)
  {
    var n: nat :| BringsIn("", outcomes, n, line);
    SplitIsIrrelevant("", outcomes, n, line);
  }

  /** Main result, for every sequence of reads: PAM succeeds exactly when some first stretch of them brought
      in the allowing line, fails the authentication exactly when one brought in a refusal, and reports
      that it cannot tell in every other case: a closed or failed connection, a time-out, anything else. */
  lemma PamAnswersExactly(outcomes: seq<ReadOutcome>)
    ensures var code := PamResult(ReplyFrom("", outcomes));
            && (code == Success <==> Brought(outcomes, "ALLOW\n"))
            && (code == AuthErr <==> exists line :: IsRefusal(line) && Brought(outcomes, line))
            && (code == AuthinfoUnavail <==>
                  !Brought(outcomes, "ALLOW\n") && !exists line :: IsRefusal(line) && Brought(outcomes, line))
  {
    AllowLines("ALLOW\n");
    if Brought(outcomes, "ALLOW\n") {
      AnswersWhatIsBrought(outcomes, "ALLOW\n");
    }
    forall line | IsRefusal(line) && Brought(outcomes, line)
      ensures ReplyFrom("", outcomes) == Some(Deny)
    {
      RefusalLines(line);
      AnswersWhatIsBrought(outcomes, line);
    }
    if ReplyFrom("", outcomes).Some? {
      var n, line := AnswersByALine("", outcomes);
      AllowLines(line);
      RefusalLines(line);
      assert Brought(outcomes, line);
    }
  }

  /** Main result: for every reply the daemon can render and every way it can arrive, PAM succeeds exactly
      when the decision was Allow, and reports a failed authentication otherwise. */
  lemma AnySplitYieldsTheDecision(d: Evidence.Decision, pieces: seq<ReadOutcome>, rest: seq<ReadOutcome>)
    requires IsArrival(pieces) && Delivered(pieces) == Wire.Render(d)
    ensures PamResult(ReplyFrom("", pieces + rest)) == if d == Evidence.Allow then Success else AuthErr
  {
    var line := Wire.Render(d);
    RenderedReply(d);
    assert (pieces + rest)[..|pieces|] == pieces && "" + line == line;
    assert BringsIn("", pieces + rest, |pieces|, line);
    SplitIsIrrelevant("", pieces + rest, |pieces|, line);
  }

  lemma RenderedReply(d: Evidence.Decision)
    ensures EndsAtFirstNewline(Wire.Render(d)) && |Wire.Render(d)| <= MAX_REPLY_BYTES
    ensures ParseReply(Wire.Render(d)) == if d == Evidence.Allow then Some(Allow) else Some(Deny)
  {
    var line := Wire.Render(d);
    Wire.AggregateRoundTrip(d);
    assert line[..|line| - 1] == Wire.DecisionText(d);
    if d.Deny? {
      var token := Wire.Token(d.reason);
      Wire.TokensAreWords(d.reason);
      assert line[..5] == "DENY ";
      assert line[5..|line| - 1] == token;
    }
  }

  /** The reader allows only when the bytes it has consumed are exactly the allowing reply: some first
      stretch of reads delivered that line and nothing else. */
  lemma AllowsOnlyTheAllowLine(buffered: string, outcomes: seq<ReadOutcome>) returns (n: nat)
    requires |buffered| < MAX_REPLY_BYTES && ReplyFrom(buffered, outcomes) == Some(Allow)
    ensures n <= |outcomes| && IsArrival(outcomes[..n])
    ensures buffered + Delivered(outcomes[..n]) == Wire.RESP_ALLOW
  {
    var line;
    n, line := AnswersByALine(buffered, outcomes);
    AllowLines(line);
  }
}
