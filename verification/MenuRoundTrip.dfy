/** What installing and removing the menu block do to the user's file, together and repeated. */
module MenuRoundTrip {
  import opened Prelude
  import opened MenuLexer
  import opened MenuEdit

  // ---------------------------------------------------------------------
  // Finding the block again
  // ---------------------------------------------------------------------

  ghost predicate IsFreeOf(s: string, pattern: string) {
    forall i: nat :: !OccursAt(s, pattern, i)
  }

  ghost predicate IsUnmarked(m: Markers, s: string) {
    IsFreeOf(s, m.start) && IsFreeOf(s, m.end)
  }

  /** No two slashes in a row: what the row texts must not contain, since a marker starts with them. */
  ghost predicate HasNoSlashPair(s: string) {
    forall i | 0 <= i < |s| - 1 :: !(s[i] == '/' && s[i + 1] == '/')
  }

  /** What makes the markers findable: their lengths, no newline or comma in them, two slashes in front and
      none after, a character that tells them apart, and no two spaces in a row nor one at the end, so that
      none reaches across the block's indentation. */
  ghost predicate AreMarkers(m: Markers) {
    && |m.start| == 37 && |m.end| == 35
    && '\n' !in m.start && '\n' !in m.end && ',' !in m.start && ',' !in m.end
    && m.start[0] == m.start[1] == '/' == m.end[0] == m.end[1]
    && (forall k | 2 <= k < |m.start| :: m.start[k] != '/')
    && m.start[32] != m.end[32]
    && IsSpaceSafe(m.start) && IsSpaceSafe(m.end)
  }

  ghost predicate IsSpaceSafe(pattern: string) {
    && pattern != "" && pattern[|pattern| - 1] != ' '
    && forall k | 0 <= k < |pattern| - 1 :: !(pattern[k] == ' ' && pattern[k + 1] == ' ')
  }

  /** One differing character rules an occurrence out. */
  lemma Mismatch(s: string, pattern: string, i: nat, j: nat)
    requires j < |pattern| && i + j < |s| && s[i + j] != pattern[j]
    ensures !OccursAt(s, pattern, i)
  {
    assert i + |pattern| <= |s| ==> s[i..i + |pattern|][j] == s[i + j];
  }

  lemma NotBeforeTheBlock(t: string, p: nat, tail: string, pattern: string, k: nat)
    requires p <= |t| && IsFreeOf(t, pattern) && IsSpaceSafe(pattern)
    requires |tail| >= 2 && tail[0] == tail[1] == ' '
    requires k < p
    ensures !OccursAt(t[..p] + tail, pattern, k)
  {
    var s, n := t[..p] + tail, |pattern|;
    assert s[p] == tail[0] && s[p + 1] == tail[1];
    if k + n <= p {
      assert t[k..k + n] == s[k..k + n];
      assert !OccursAt(t, pattern, k);
    } else if pattern[p - k] != ' ' {
      Mismatch(s, pattern, k, p - k);
    } else {
      Mismatch(s, pattern, k, p - k + 1);
    }
  }

  /** Where the characters of the block are. */
  lemma BlockShape(m: Markers, rows: string)
    requires AreMarkers(m)
    ensures var b := Block(m, rows);
            && |b| == 79 + |rows|
            && b[0] == b[1] == ' '
            && (forall k | 0 <= k < 37 :: b[2 + k] == m.start[k])
            && b[39] == '\n'
            && (forall k | 0 <= k < |rows| :: b[40 + k] == rows[k])
            && b[40 + |rows|] == '\n' && b[41 + |rows|] == b[42 + |rows|] == ' '
            && (forall k | 0 <= k < 35 :: b[43 + |rows| + k] == m.end[k])
            && b[78 + |rows|] == '\n'
  {
  }

  /** The end marker does not occur in the block before its last line. */
  lemma EndMarkerIsLast(m: Markers, rows: string, k: nat)
    requires AreMarkers(m)
    requires HasNoSlashPair(rows) && k < 43 + |rows|
    ensures var b := Block(m, rows);
            k + 1 < |b| && (b[k] == b[k + 1] == '/' ==> k == 2)
  {
    BlockShape(m, rows);
    var b := Block(m, rows);
    if 4 <= k < 39 {
      assert b[k] == b[2 + (k - 2)] == m.start[k - 2];
    } else if k == 3 {
      assert b[4] == m.start[2];
    } else if 40 <= k < 40 + |rows| {
      assert b[k] == b[40 + (k - 40)] == rows[k - 40];
      if k + 1 < 40 + |rows| {
        assert b[k + 1] == b[40 + (k - 39)] == rows[k - 39];
      }
    }
  }

  /** A pattern the text does not hold is first found where the inserted block holds it first. */
  lemma FirstInBlock(t: string, p: nat, tail: string, pattern: string, at: nat, s: string)
    requires p <= |t| && s == t[..p] + tail && IsFreeOf(t, pattern) && IsSpaceSafe(pattern)
    requires |tail| >= 2 && tail[0] == tail[1] == ' '
    requires p <= at && OccursAt(s, pattern, at)
    requires forall k: nat | p <= k < at :: !OccursAt(s, pattern, k)
    ensures Find(s, pattern) == Some(at)
  {
    forall k: nat | k < p
      ensures !OccursAt(s, pattern, k)
    {
      NotBeforeTheBlock(t, p, tail, pattern, k);
    }
  }

  lemma TailIsIndented(m: Markers, rows: string, after: string)
    requires AreMarkers(m)
    ensures var tail := Block(m, rows) + after; |tail| >= 2 && tail[0] == tail[1] == ' '
  {
    BlockShape(m, rows);
  }

  /** The text `s` is `t` with the block for `rows` put in at `p`. */
  ghost predicate IsInserted(m: Markers, t: string, p: nat, rows: string, s: string) {
    && p <= |t|
    && s == t[..p] + Block(m, rows) + t[p..]
    && s == t[..p] + (Block(m, rows) + t[p..])
    && IsPlaced(s, p, Block(m, rows))
  }

  ghost predicate IsPlaced(s: string, p: nat, b: string) {
    p + |b| <= |s| && forall k | 0 <= k < |b| :: s[p + k] == b[k]
  }

  lemma StartIsFound(m: Markers, t: string, p: nat, rows: string, s: string)
    requires AreMarkers(m)
    requires IsInserted(m, t, p, rows, s) && IsFreeOf(t, m.start)
    ensures Find(s, m.start) == Some(p + 2)
  {
    var b := Block(m, rows);
    assert |b| >= 2 && b[0] == b[1] == ' ' by { BlockShape(m, rows); }
    StartIsThere(m, s, p, b, rows);
    StartIsNotBefore(m, s, p, b);
    FirstInBlock(t, p, b + t[p..], m.start, p + 2, s);
  }

  lemma EndIsFound(m: Markers, t: string, p: nat, rows: string, s: string)
    requires AreMarkers(m)
    requires IsInserted(m, t, p, rows, s) && IsFreeOf(t, m.end) && HasNoSlashPair(rows)
    ensures Find(s, m.end) == Some(p + 43 + |rows|)
  {
    var b := Block(m, rows);
    TailIsIndented(m, rows, t[p..]);
    EndIsThere(m, s, p, b, rows);
    EndIsNowhereBefore(m, s, p, b, rows);
    FirstInBlock(t, p, b + t[p..], m.end, p + 43 + |rows|, s);
  }

  lemma EndIsNowhereBefore(m: Markers, s: string, p: nat, b: string, rows: string)
    requires AreMarkers(m)
    requires b == Block(m, rows) && IsPlaced(s, p, b) && HasNoSlashPair(rows)
    ensures forall k: nat | p <= k < p + 43 + |rows| :: !OccursAt(s, m.end, k)
  {
    forall k: nat | p <= k < p + 43 + |rows|
      ensures !OccursAt(s, m.end, k)
    {
      EndIsNotBefore(m, s, p, b, rows, k);
    }
  }

  lemma StartIsThere(m: Markers, s: string, p: nat, b: string, rows: string)
    requires AreMarkers(m)
    requires b == Block(m, rows) && IsPlaced(s, p, b)
    ensures OccursAt(s, m.start, p + 2)
  {
    BlockShape(m, rows);
    forall k | 0 <= k < 37
      ensures s[p + 2..p + 2 + 37][k] == m.start[k]
    {
      assert s[p + (2 + k)] == b[2 + k];
    }
  }

  lemma StartIsNotBefore(m: Markers, s: string, p: nat, b: string)
    requires AreMarkers(m)
    requires IsPlaced(s, p, b) && |b| >= 2 && b[0] == b[1] == ' '
    ensures forall k: nat | p <= k < p + 2 :: !OccursAt(s, m.start, k)
  {
    assert s[p + 0] == b[0] && s[p + 1] == b[1];
    Mismatch(s, m.start, p, 0);
    Mismatch(s, m.start, p + 1, 0);
  }

  lemma EndIsThere(m: Markers, s: string, p: nat, b: string, rows: string)
    requires AreMarkers(m)
    requires b == Block(m, rows) && IsPlaced(s, p, b)
    ensures OccursAt(s, m.end, p + 43 + |rows|)
  {
    BlockShape(m, rows);
    var e := p + 43 + |rows|;
    forall k | 0 <= k < 35
      ensures s[e..e + 35][k] == m.end[k]
    {
      assert s[p + (43 + |rows| + k)] == b[43 + |rows| + k];
    }
  }

  lemma EndIsNotBefore(m: Markers, s: string, p: nat, b: string, rows: string, k: nat)
    requires AreMarkers(m)
    requires b == Block(m, rows) && IsPlaced(s, p, b)
    requires HasNoSlashPair(rows)
    requires p <= k < p + 43 + |rows|
    ensures !OccursAt(s, m.end, k)
  {
    EndMarkerIsLast(m, rows, k - p);
    assert s[p + (k - p)] == b[k - p] && s[p + (k + 1 - p)] == b[k + 1 - p];
    if s[k] != '/' {
      Mismatch(s, m.end, k, 0);
    } else if s[k + 1] != '/' {
      Mismatch(s, m.end, k, 1);
    } else {
      BlockShape(m, rows);
      assert s[p + 34] == b[34] == b[2 + 32] == m.start[32];
      Mismatch(s, m.end, k, 32);
    }
  }

  // ---------------------------------------------------------------------
  // When the edits fail
  // ---------------------------------------------------------------------

  /** The first occurrence of the pattern. */
  ghost predicate FirstAt(s: string, pattern: string, i: nat) {
    OccursAt(s, pattern, i) && forall k: nat | k < i :: !OccursAt(s, pattern, k)
  }

  /** A removal fails exactly when the end marker first comes before the start marker. */
  lemma RemovalFailsExactly(m: Markers, s: string)
    ensures Removal(m, s).Err? <==> exists i: nat, j: nat :: FirstAt(s, m.start, i) && FirstAt(s, m.end, j) && j < i
    ensures Removal(m, s).Err? ==> Removal(m, s).error == MalformedBlock
  {
    if i: nat, j: nat :| FirstAt(s, m.start, i) && FirstAt(s, m.end, j) && j < i {
      assert Find(s, m.start) == Some(i) && Find(s, m.end) == Some(j);
    }
    if Removal(m, s).Err? {
      assert FirstAt(s, m.start, Find(s, m.start).value) && FirstAt(s, m.end, Find(s, m.end).value);
    }
  }

  /** An install fails exactly when the removal before it does, or leaves text without a closing brace. */
  lemma EntryFailsExactly(m: Markers, s: string, rows: string)
    ensures Entry(m, s, rows).Err? <==> Removal(m, s).Err? || '}' !in Removal(m, s).value
    ensures Entry(m, s, rows).Err? ==> Entry(m, s, rows).error == if Removal(m, s).Err? then MalformedBlock else NoClosingBrace
  {
    RemovalFailsExactly(m, s);
    if Removal(m, s).Ok? {
      var text := Removal(m, s).value;
      var close := FindLast(text, '}');
      if close.Some? {
        assert text[close.value] in text;
        BraceStays(text, close.value);
      }
    }
  }

  lemma BraceStays(text: string, close: nat)
    requires FindLast(text, '}') == Some(close)
    ensures FindLast(WithComma(text, close), '}').Some?
  {
    if NeedsComma(text, close) {
      CommaMovesTheBrace(text, close);
    }
  }

  // ---------------------------------------------------------------------
  // Removing what was added
  // ---------------------------------------------------------------------

  lemma RemovalCuts(m: Markers, s: string, start: nat, end: nat, from: nat, to: nat)
    requires AreMarkers(m)
    requires Find(s, m.start) == Some(start) && Find(s, m.end) == Some(end) && start <= end
    requires LineStart(s, start, 0) == from && LineEnd(s, end) == to
    ensures from <= to <= |s| && Removal(m, s) == Ok(DropTrailingComma(s[..from] + s[to..]))
  {
  }

  /** The lines of a block whose rows take `n` characters: how it starts, and where its last line ends. */
  ghost predicate HasBlockLines(b: string, n: nat) {
    && |b| == 79 + n && b[0] == b[1] == ' ' && b[78 + n] == '\n'
    && forall k | 43 + n <= k < 78 + n :: b[k] != '\n'
  }

  lemma BlockHasLines(m: Markers, rows: string)
    requires AreMarkers(m)
    ensures HasBlockLines(Block(m, rows), |rows|)
  {
    BlockShape(m, rows);
    var b, n := Block(m, rows), |rows|;
    forall k | 43 + n <= k < 78 + n
      ensures b[k] != '\n'
    {
      assert b[k] == b[43 + n + (k - 43 - n)] == m.end[k - 43 - n];
      assert m.end[k - 43 - n] in m.end;
    }
  }

  lemma InsertionPlaces(before: string, b: string, after: string)
    ensures before + b + after == before + (b + after)
    ensures IsPlaced(before + b + after, |before|, b)
  {
  }

  lemma BlockLines(t: string, close: nat, b: string, n: nat, s: string)
    requires close <= |t| && HasBlockLines(b, n)
    requires s == t[..BlockPosition(t, close)] + b + t[BlockPosition(t, close)..]
    ensures var p := BlockPosition(t, close);
            && p + |b| <= |s|
            && LineStart(s, p + 2, 0) == (if '\n' in t[..close] then p else 0)
            && LineEnd(s, p + 43 + n) == p + |b|
  {
    var p := BlockPosition(t, close);
    InsertionPlaces(t[..p], b, t[p..]);
    CutStart(t, close, p, s, b);
    CutEnd(s, p, b, n);
  }

  lemma CuttingWhatWasFound(m: Markers, t: string, close: nat, b: string, n: nat, s: string)
    requires AreMarkers(m)
    requires close <= |t| && HasBlockLines(b, n)
    requires s == t[..BlockPosition(t, close)] + b + t[BlockPosition(t, close)..]
    requires Find(s, m.start) == Some(BlockPosition(t, close) + 2)
    requires Find(s, m.end) == Some(BlockPosition(t, close) + 43 + n)
    ensures Removal(m, s) == Ok(DropTrailingComma(Remaining(t, close)))
  {
    var p := BlockPosition(t, close);
    BlockLines(t, close, b, n, s);
    CutPieces(t, close, p, s, b);
    RemovalCuts(m, s, p + 2, p + 43 + n, if '\n' in t[..close] then p else 0, p + |b|);
  }

  lemma MarkersAreFound(m: Markers, t: string, p: nat, rows: string, s: string)
    requires AreMarkers(m)
    requires p <= |t| && IsUnmarked(m, t) && HasNoSlashPair(rows)
    requires s == t[..p] + Block(m, rows) + t[p..]
    ensures Find(s, m.start) == Some(p + 2)
    ensures Find(s, m.end) == Some(p + 43 + |rows|)
  {
    InsertionPlaces(t[..p], Block(m, rows), t[p..]);
    StartIsFound(m, t, p, rows, s);
    EndIsFound(m, t, p, rows, s);
  }

  /** Cutting the block's lines out of the text: all that is lost is what shares its first line. */
  lemma CuttingTheBlock(m: Markers, t: string, close: nat, rows: string)
    requires AreMarkers(m)
    requires close <= |t| && IsUnmarked(m, t) && HasNoSlashPair(rows)
    ensures Removal(m, WithBlock(m, t, close, rows)) == Ok(DropTrailingComma(Remaining(t, close)))
  {
    var s := WithBlock(m, t, close, rows);
    MarkersAreFound(m, t, BlockPosition(t, close), rows, s);
    BlockHasLines(m, rows);
    CuttingWhatWasFound(m, t, close, Block(m, rows), |rows|, s);
  }

  /** What is left of `t` once a block inserted before its brace at `close` is cut out again. */
  function Remaining(t: string, close: nat): string
    requires close <= |t|
  {
    if '\n' in t[..close] then t else t[close..]
  }

  lemma CutPieces(t: string, close: nat, p: nat, s: string, b: string)
    requires close <= |t| && p == BlockPosition(t, close) && s == t[..p] + b + t[p..]
    ensures s[..if '\n' in t[..close] then p else 0] + s[p + |b|..] == Remaining(t, close)
  {
    assert s[p + |b|..] == t[p..];
    if FindLast(t[..close], '\n').Some? {
      var k := FindLast(t[..close], '\n').value;
      assert t[..close][k] in t[..close];
    }
  }

  lemma CutStart(t: string, close: nat, p: nat, s: string, b: string)
    requires close <= |t| && p == BlockPosition(t, close)
    requires |b| >= 2 && b[0] == b[1] == ' ' && s == t[..p] + b + t[p..]
    ensures LineStart(s, p + 2, 0) == if '\n' in t[..close] then p else 0
  {
    var before := s[..p + 2];
    assert before == t[..p] + [' ', ' '];
    var newline := FindLast(t[..close], '\n');
    if '\n' in t[..close] {
      var k :| 0 <= k < close && t[..close][k] == '\n';
      assert newline.Some? && before[p - 1] == t[p - 1] == '\n';
      assert FindLast(before, '\n') == Some(p - 1);
    } else {
      forall k | 0 <= k < |before|
        ensures before[k] != '\n'
      {
        if k < p {
          assert t[..close][k] in t[..close];
        }
      }
    }
  }

  lemma LineEndAt(s: string, from: nat, newline: nat)
    requires from <= newline < |s| && s[newline] == '\n'
    requires forall k | from <= k < newline :: s[k] != '\n'
    ensures LineEnd(s, from) == newline + 1
  {
    assert s[newline..newline + 1] == "\n" && OccursAt(s, "\n", newline);
    forall k: nat | from <= k < newline
      ensures !OccursAt(s, "\n", k)
    {
      Mismatch(s, "\n", k, 0);
    }
  }

  lemma CutEnd(s: string, p: nat, b: string, n: nat)
    requires HasBlockLines(b, n) && IsPlaced(s, p, b)
    ensures p + 43 + n <= |s| && LineEnd(s, p + 43 + n) == p + |b|
  {
    var e := p + 43 + n;
    assert s[p + (78 + n)] == '\n';
    forall k | e <= k < e + 35
      ensures s[k] != '\n'
    {
      assert s[p + (k - p)] == b[k - p];
    }
    LineEndAt(s, e, e + 35);
  }

  /** A comma added to unmarked text leaves it unmarked. */
  lemma CommaKeepsFree(s: string, at: nat, pattern: string)
    requires at <= |s| && IsFreeOf(s, pattern) && ',' !in pattern && pattern != ""
    ensures IsFreeOf(InsertComma(s, at), pattern)
  {
    var t, n := InsertComma(s, at), |pattern|;
    forall k: nat
      ensures !OccursAt(t, pattern, k)
    {
      if k + n <= |t| {
        if k + n <= at {
          assert s[k..k + n] == t[k..k + n];
          assert !OccursAt(s, pattern, k);
        } else if k <= at {
          assert pattern[at - k] in pattern;
          Mismatch(t, pattern, k, at - k);
        } else {
          assert s[k - 1..k - 1 + n] == t[k..k + n];
          assert !OccursAt(s, pattern, k - 1);
        }
      }
    }
  }

  /** The texts an install and a removal together leave alone. */
  predicate IsRestorable(s: string, close: nat)
    requires close <= |s|
  {
    var head := s[..close];
    && (close == 0 || '\n' in head)
    && !EndsInString(head)
    && (LastMeaningful(head).Some? ==> head[LastMeaningful(head).value] != ',')
  }

  lemma RemainingWithoutComma(s: string, close: nat)
    requires FindLast(s, '}') == Some(close) && !NeedsComma(s, close)
    ensures DropTrailingComma(Remaining(s, close)) == s <==> IsRestorable(s, close)
  {
    var head := s[..close];
    var last := LastMeaningful(head);
    if last.Some? {
      ModeAfterLast(head, last.value);
      assert s[last.value] == head[last.value];
      assert s[last.value] == '{' || s[last.value] == ',';
    } else {
      NothingMeaningfulNoString(head);
    }
    if close == 0 {
      assert s[0..] == s;
    } else {
      assert |DropTrailingComma(s[close..])| <= |s| - close;
    }
  }

  /** With a comma to add, restorability is down to the line and to open strings. */
  lemma RestorableWithComma(s: string, close: nat)
    requires close <= |s| && NeedsComma(s, close)
    ensures IsRestorable(s, close) <==> '\n' in s[..close] && !EndsInString(s[..close])
  {
    var head := s[..close];
    assert s[LastMeaningful(head).value] == head[LastMeaningful(head).value];
  }

  lemma DropShortens(s: string)
    ensures |DropTrailingComma(s)| <= |s|
  {
  }

  lemma BraceAfterComma(s: string, close: nat, i: nat)
    requires FindLast(s, '}') == Some(close) && i < close
    ensures var t := InsertComma(s, i + 1);
            && |t| == |s| + 1
            && FindLast(t, '}') == Some(close + 1)
            && ('\n' in t[..close + 1] <==> '\n' in s[..close])
  {
    CloseMoves(s, close, i);
    NewlineKept(s[..close], i + 1);
  }

  lemma WithCommaIs(s: string, close: nat)
    requires close <= |s| && NeedsComma(s, close)
    ensures WithComma(s, close) == InsertComma(s, LastMeaningful(s[..close]).value + 1)
  {
  }

  lemma CommaMovesTheBrace(s: string, close: nat)
    requires FindLast(s, '}') == Some(close) && NeedsComma(s, close)
    ensures FindLast(WithComma(s, close), '}') == Some(close + 1)
    ensures |WithComma(s, close)| == |s| + 1
    ensures '\n' in WithComma(s, close)[..close + 1] <==> '\n' in s[..close]
  {
    WithCommaIs(s, close);
    BraceAfterComma(s, close, LastMeaningful(s[..close]).value);
  }

  lemma CommaOnTheFirstLine(s: string, close: nat)
    requires FindLast(s, '}') == Some(close) && NeedsComma(s, close) && '\n' !in s[..close]
    ensures close + 1 <= |WithComma(s, close)| && DropTrailingComma(Remaining(WithComma(s, close), close + 1)) != s
  {
    CommaMovesTheBrace(s, close);
    DropShortens(WithComma(s, close)[close + 1..]);
  }

  lemma CommaFurtherDown(s: string, close: nat)
    requires FindLast(s, '}') == Some(close) && NeedsComma(s, close) && '\n' in s[..close]
    ensures close + 1 <= |WithComma(s, close)|
    ensures DropTrailingComma(Remaining(WithComma(s, close), close + 1)) == s <==> !EndsInString(s[..close])
  {
    CommaMovesTheBrace(s, close);
    TakingTheCommaBack(s, close);
    assert Remaining(WithComma(s, close), close + 1) == WithComma(s, close);
  }

  lemma RemainingWithComma(s: string, close: nat)
    requires FindLast(s, '}') == Some(close) && NeedsComma(s, close)
    ensures var t := WithComma(s, close);
            && FindLast(t, '}') == Some(close + 1)
            && (DropTrailingComma(Remaining(t, close + 1)) == s <==> IsRestorable(s, close))
  {
    CommaMovesTheBrace(s, close);
    RestorableWithComma(s, close);
    if '\n' in s[..close] {
      CommaFurtherDown(s, close);
    } else {
      CommaOnTheFirstLine(s, close);
    }
  }

  lemma SeparatedIsUnmarked(m: Markers, s: string, close: nat)
    requires AreMarkers(m)
    requires close <= |s| && IsUnmarked(m, s)
    ensures IsUnmarked(m, WithComma(s, close))
  {
    if NeedsComma(s, close) {
      var at := LastMeaningful(s[..close]).value + 1;
      CommaKeepsFree(s, at, m.start);
      CommaKeepsFree(s, at, m.end);
    }
  }

  /** The text with its comma, before the block goes in, and where its brace then is. */
  lemma SeparatedText(s: string, close: nat)
    requires FindLast(s, '}') == Some(close)
    ensures var t := WithComma(s, close);
            && FindLast(t, '}').Some?
            && (DropTrailingComma(Remaining(t, FindLast(t, '}').value)) == s <==> IsRestorable(s, close))
  {
    if NeedsComma(s, close) {
      RemainingWithComma(s, close);
    } else {
      RemainingWithoutComma(s, close);
    }
  }

  lemma CloseMoves(s: string, close: nat, i: nat)
    requires FindLast(s, '}') == Some(close) && i < close
    ensures var t := InsertComma(s, i + 1);
            FindLast(t, '}') == Some(close + 1) && t[..close + 1] == InsertComma(s[..close], i + 1)
  {
    var t := InsertComma(s, i + 1);
    assert t[close + 1] == s[close];
    assert forall k | close + 1 < k < |t| :: t[k] == s[k - 1];
  }

  lemma TakingTheCommaBack(s: string, close: nat)
    requires FindLast(s, '}') == Some(close) && NeedsComma(s, close)
    ensures DropTrailingComma(WithComma(s, close)) == s <==> !EndsInString(s[..close])
  {
    var i := LastMeaningful(s[..close]).value;
    LastAfterComma(s, close, i);
    DropAt(InsertComma(s, i + 1), close + 1, if EndsInString(s[..close]) then i else i + 1);
    DroppedComma(s, i);
  }

  lemma LastAfterComma(s: string, close: nat, i: nat)
    requires FindLast(s, '}') == Some(close) && LastMeaningful(s[..close]) == Some(i)
    ensures var t := InsertComma(s, i + 1);
            && FindLast(t, '}') == Some(close + 1)
            && LastMeaningful(t[..close + 1]) == Some(if EndsInString(s[..close]) then i else i + 1)
  {
    CloseMoves(s, close, i);
    CommaBecomesLast(s[..close], i);
  }

  lemma DroppedComma(s: string, i: nat)
    requires i < |s|
    ensures var t := InsertComma(s, i + 1);
            t[i] == s[i] && t[i + 1] == ',' && t[..i + 1] + t[i + 2..] == s && t != s
  {
    assert |InsertComma(s, i + 1)| == |s| + 1;
  }

  lemma DropAt(t: string, close: nat, last: nat)
    requires FindLast(t, '}') == Some(close) && LastMeaningful(t[..close]) == Some(last)
    ensures DropTrailingComma(t) == if t[last] == ',' then t[..last] + t[last + 1..] else t
  {
  }

  lemma NewlineKept(head: string, at: nat)
    requires at <= |head|
    ensures '\n' in InsertComma(head, at) <==> '\n' in head
  {
    assert head == head[..at] + head[at..];
  }

  lemma EntryIs(m: Markers, s: string, rows: string, close: nat)
    requires AreMarkers(m)
    requires IsUnmarked(m, s) && FindLast(s, '}') == Some(close)
    requires FindLast(WithComma(s, close), '}').Some?
    ensures var t := WithComma(s, close);
            Entry(m, s, rows) == Ok(WithBlock(m, t, FindLast(t, '}').value, rows))
  {
    UnmarkedIsKept(m, s);
  }

  /** Main result: removing what was just installed gives the file back byte for byte exactly when its
      last brace is not on a first line with text before it, no string is open before that brace, and
      the last entry had no trailing comma of its own. */
  lemma RemovalUndoesEntry(m: Markers, s: string, rows: string, close: nat)
    requires AreMarkers(m)
    requires IsUnmarked(m, s) && HasNoSlashPair(rows) && FindLast(s, '}') == Some(close)
    ensures Entry(m, s, rows).Ok? && Removal(m, Entry(m, s, rows).value).Ok?
    ensures Removal(m, Entry(m, s, rows).value) == Ok(s) <==> IsRestorable(s, close)
  {
    var t := WithComma(s, close);
    SeparatedText(s, close);
    SeparatedIsUnmarked(m, s, close);
    EntryIs(m, s, rows, close);
    CuttingTheBlock(m, t, FindLast(t, '}').value, rows);
  }

  // ---------------------------------------------------------------------
  // Installing again
  // ---------------------------------------------------------------------

  predicate HasOwnComma(s: string, close: nat)
    requires close <= |s|
  {
    var last := LastMeaningful(s[..close]);
    last.Some? && s[last.value] == ','
  }

  /** The texts a second install leaves as the first one left them. */
  predicate IsStable(s: string, close: nat)
    requires close <= |s|
  {
    && (close == 0 || '\n' in s[..close])
    && !EndsInString(s[..close])
    && (HasOwnComma(s, close) ==> FollowsEntry(s[..close], LastMeaningful(s[..close]).value))
  }

  lemma RestorableIsStable(s: string, close: nat)
    requires close <= |s|
    ensures IsRestorable(s, close) <==>
            (close == 0 || '\n' in s[..close]) && !EndsInString(s[..close]) && !HasOwnComma(s, close)
  {
    var last := LastMeaningful(s[..close]);
    assert last.Some? ==> s[..close][last.value] == s[last.value];
  }

  /** What a second install starts from and makes. */
  lemma Reinstalled(m: Markers, e: string, rows: string, u: string, cu: nat)
    requires AreMarkers(m)
    requires Removal(m, e) == Ok(u) && FindLast(u, '}') == Some(cu)
    ensures FindLast(WithComma(u, cu), '}') == Some(if NeedsComma(u, cu) then cu + 1 else cu)
    ensures Entry(m, e, rows) == Ok(WithBlock(m, WithComma(u, cu), FindLast(WithComma(u, cu), '}').value, rows))
  {
    if NeedsComma(u, cu) {
      CommaMovesTheBrace(u, cu);
    }
  }

  lemma WithBlockLength(m: Markers, t: string, close: nat, rows: string)
    requires AreMarkers(m)
    requires close <= |t|
    ensures |WithBlock(m, t, close, rows)| == |t| + |Block(m, rows)|
  {
  }

  lemma WithCommaLength(u: string, cu: nat)
    requires cu <= |u|
    ensures |WithComma(u, cu)| == |u| + if NeedsComma(u, cu) then 1 else 0
  {
  }

  /** A second install that starts from text of another length ends with text of another length, unless
      its comma makes up the difference. */
  lemma LengthsDiffer(m: Markers, e: string, t: string, close: nat, rows: string, u: string, cu: nat)
    requires AreMarkers(m)
    requires close <= |t| && e == WithBlock(m, t, close, rows)
    requires Removal(m, e) == Ok(u) && FindLast(u, '}') == Some(cu)
    requires |u| + (if NeedsComma(u, cu) then 1 else 0) != |t|
    ensures Entry(m, e, rows) != Ok(e)
  {
    Reinstalled(m, e, rows, u, cu);
    WithCommaLength(u, cu);
    WithBlockLength(m, t, close, rows);
    WithBlockLength(m, WithComma(u, cu), FindLast(WithComma(u, cu), '}').value, rows);
  }

  /** Nothing before the brace: nothing to drop and nothing to separate. */
  lemma LoneBrace(u: string)
    requires FindLast(u, '}') == Some(0)
    ensures DropTrailingComma(u) == u && !NeedsComma(u, 0)
  {
    assert u[..0] == "";
  }

  lemma BraceOfTail(t: string, close: nat)
    requires FindLast(t, '}') == Some(close)
    ensures FindLast(t[close..], '}') == Some(0)
  {
    var u := t[close..];
    assert u[0] == t[close];
    assert forall k | 0 < k < |u| :: u[k] == t[close + k];
  }

  lemma FirstLineIsUnstable(m: Markers, t: string, close: nat, rows: string)
    requires AreMarkers(m)
    requires FindLast(t, '}') == Some(close) && 0 < close && '\n' !in t[..close]
    requires IsUnmarked(m, t) && HasNoSlashPair(rows)
    ensures Entry(m, WithBlock(m, t, close, rows), rows) != Ok(WithBlock(m, t, close, rows))
  {
    CuttingTheBlock(m, t, close, rows);
    BraceOfTail(t, close);
    LoneBrace(t[close..]);
    LengthsDiffer(m, WithBlock(m, t, close, rows), t, close, rows, t[close..], 0);
  }

  /** Before the brace the last meaningful character is the quote of a string left open. */
  lemma OpenQuoteIsLast(s: string, close: nat)
    requires close <= |s| && EndsInString(s[..close])
    ensures LastMeaningful(s[..close]).Some? && s[LastMeaningful(s[..close]).value] == '"'
    ensures NeedsComma(s, close)
  {
    var head := s[..close];
    if LastMeaningful(head).None? {
      NothingMeaningfulNoString(head);
    }
    ModeAfterLast(head, LastMeaningful(head).value);
    assert s[LastMeaningful(head).value] == head[LastMeaningful(head).value];
  }

  /** And it stays last when a comma is put after it. */
  lemma OpenQuoteStaysLast(s: string, close: nat)
    requires FindLast(s, '}') == Some(close) && EndsInString(s[..close])
    ensures NeedsComma(s, close) && FindLast(WithComma(s, close), '}') == Some(close + 1)
    ensures NeedsComma(WithComma(s, close), close + 1)
    ensures DropTrailingComma(WithComma(s, close)) == WithComma(s, close)
  {
    OpenQuoteIsLast(s, close);
    var i := LastMeaningful(s[..close]).value;
    LastAfterComma(s, close, i);
    DroppedComma(s, i);
    DropAt(InsertComma(s, i + 1), close + 1, i);
  }

  lemma NewlineStays(s: string, close: nat)
    requires FindLast(s, '}') == Some(close) && NeedsComma(s, close) && '\n' in s[..close]
    ensures |WithComma(s, close)| > close && Remaining(WithComma(s, close), close + 1) == WithComma(s, close)
  {
    CommaMovesTheBrace(s, close);
  }

  /** Where the comma is not taken back, the next install adds one more. */
  lemma SecondCommaIsAdded(m: Markers, t: string, close: nat, rows: string)
    requires AreMarkers(m)
    requires FindLast(t, '}') == Some(close) && Remaining(t, close) == t
    requires NeedsComma(t, close) && DropTrailingComma(t) == t
    requires IsUnmarked(m, t) && HasNoSlashPair(rows)
    ensures var e := WithBlock(m, t, close, rows); Entry(m, e, rows) != Ok(e)
  {
    CuttingTheBlock(m, t, close, rows);
    LengthsDiffer(m, WithBlock(m, t, close, rows), t, close, rows, t, close);
  }

  lemma BraceAfterDrop(s: string, close: nat, c: nat)
    requires FindLast(s, '}') == Some(close) && c < close
    ensures FindLast(RemoveAt(s, c), '}') == Some(close - 1)
  {
    var u := RemoveAt(s, c);
    assert u[close - 1] == s[close];
    assert forall k | close - 1 < k < |u| :: u[k] == s[k + 1];
  }

  lemma NewlineWithout(head: string, c: nat)
    requires c < |head| && head[c] == ','
    ensures '\n' in RemoveAt(head, c) <==> '\n' in head
  {
    assert head == head[..c] + [','] + head[c + 1..];
  }

  lemma DroppingMovesTheBrace(s: string, close: nat, c: nat)
    requires FindLast(s, '}') == Some(close) && c < close && s[c] == ','
    ensures FindLast(RemoveAt(s, c), '}') == Some(close - 1)
    ensures '\n' in RemoveAt(s, c)[..close - 1] <==> '\n' in s[..close]
  {
    BraceAfterDrop(s, close, c);
    WithoutInHead(s, close, c);
    NewlineWithout(s[..close], c);
  }

  lemma AfterLineStart(t: string, close: nat)
    requires close <= |t| && '\n' in t[..close]
    ensures forall k | BlockPosition(t, close) <= k < close :: t[k] != '\n'
  {
    var newline := FindLast(t[..close], '\n');
    assert forall k | 0 <= k < close :: t[..close][k] == t[k];
  }

  /** Blocks that end in a newline and start different lines make different texts. */
  lemma EarlierInsertion(x: string, px: nat, s: string, ps: nat, b: string)
    requires px < ps <= |s| && px <= |x| && |x| == |s| && b != "" && b[|b| - 1] == '\n'
    requires x[..px] + b + x[px..] == s[..ps] + b + s[ps..]
    ensures x[ps - 1] == '\n'
  {
    var e, n := x[..px] + b + x[px..], |b|;
    assert e[ps + n - 1] == (s[..ps] + b + s[ps..])[ps + n - 1] == b[n - 1];
    assert e[ps + n - 1] == x[ps - 1];
  }

  lemma SamePlaceSameText(x: string, s: string, p: nat, b: string)
    requires p <= |s| == |x| && x[..p] + b + x[p..] == s[..p] + b + s[p..]
    ensures x == s
  {
    var e := x[..p] + b + x[p..];
    assert x[..p] == e[..p] == s[..p];
    assert x[p..] == e[p + |b|..] == s[p..];
    assert x == x[..p] + x[p..] && s == s[..p] + s[p..];
  }

  lemma SameInsertion(m: Markers, x: string, s: string, close: nat, rows: string)
    requires AreMarkers(m)
    requires close <= |s| == |x| && '\n' in x[..close] && '\n' in s[..close]
    requires WithBlock(m, x, close, rows) == WithBlock(m, s, close, rows)
    ensures x == s
  {
    var px, ps, b := BlockPosition(x, close), BlockPosition(s, close), Block(m, rows);
    AfterLineStart(x, close);
    AfterLineStart(s, close);
    assert b != "" && b[|b| - 1] == '\n' by { BlockHasLines(m, rows); }
    if px < ps {
      EarlierInsertion(x, px, s, ps, b);
    } else if ps < px {
      EarlierInsertion(s, ps, x, px, b);
    } else {
      SamePlaceSameText(x, s, px, b);
    }
  }

  lemma SameTextSameInsertion(m: Markers, x: string, s: string, close: nat, rows: string)
    requires AreMarkers(m)
    requires close <= |s| == |x| && '\n' in x[..close] && '\n' in s[..close]
    ensures WithBlock(m, x, close, rows) == WithBlock(m, s, close, rows) <==> x == s
  {
    if WithBlock(m, x, close, rows) == WithBlock(m, s, close, rows) {
      SameInsertion(m, x, s, close, rows);
    }
  }

  /** Where a comma put into the text without its comma at `c` makes the text again elsewhere, its
      neighbour on that side is a comma too. */
  lemma CommasBetween(s: string, c: nat, at: nat)
    requires c < |s| && s[c] == ',' && at < |s| && InsertComma(RemoveAt(s, c), at) == s
    ensures at < c ==> s[c - 1] == ','
    ensures at > c ==> c + 1 < |s| && s[c + 1] == ','
  {
    var t := InsertComma(RemoveAt(s, c), at);
    assert at < c ==> t[c] == s[c - 1];
    assert at > c ==> t[c] == s[c + 1];
  }

  lemma WithoutInHead(s: string, close: nat, c: nat)
    requires c < close <= |s|
    ensures RemoveAt(s, c)[..close - 1] == RemoveAt(s[..close], c)
  {
  }

  /** The comma is put back only where the scan uncovers what it followed. */
  lemma PutBackMeansLast(head: string, c: nat, last: nat)
    requires LastMeaningful(head) == Some(c) && head[c] == ','
    requires LastMeaningful(RemoveAt(head, c)) == Some(last)
    requires last + 1 < c ==> head[c - 1] == ','
    requires last + 1 > c && c + 1 < |head| ==> head[c + 1] == ','
    ensures last + 1 == c
  {
    MeaningfulCommaIsCode(head, c);
    if !JoinsComment(head, c) {
      LastAfterDrop(head, c);
    }
  }

  /** A second install starts from the text without its trailing comma. */
  lemma OwnCommaReinstalled(m: Markers, s: string, close: nat, rows: string, e: string, c: nat)
    requires AreMarkers(m) && IsUnmarked(m, s) && HasNoSlashPair(rows)
    requires FindLast(s, '}') == Some(close) && '\n' in s[..close]
    requires LastMeaningful(s[..close]) == Some(c) && s[c] == ','
    requires e == WithBlock(m, s, close, rows)
    ensures Entry(m, e, rows) == Ok(e) <==>
            NeedsComma(RemoveAt(s, c), close - 1) && WithComma(RemoveAt(s, c), close - 1) == s
  {
    DropAt(s, close, c);
    CuttingTheBlock(m, s, close, rows);
    DroppingMovesTheBrace(s, close, c);
    SecondInstall(m, s, close, rows, e, RemoveAt(s, c));
  }

  lemma OwnCommaStability(m: Markers, s: string, close: nat, rows: string)
    requires AreMarkers(m)
    requires FindLast(s, '}') == Some(close) && '\n' in s[..close] && HasOwnComma(s, close)
    requires IsUnmarked(m, s) && HasNoSlashPair(rows)
    ensures var e := WithBlock(m, s, close, rows);
            Entry(m, e, rows) == Ok(e) <==> FollowsEntry(s[..close], LastMeaningful(s[..close]).value)
  {
    var c := LastMeaningful(s[..close]).value;
    OwnCommaReinstalled(m, s, close, rows, WithBlock(m, s, close, rows), c);
    CommaIsPutBackExactly(s, close, c);
  }

  lemma PutBackWhereItWas(s: string, close: nat, c: nat)
    requires 0 < c < close <= |s| && s[c] == ',' && LastMeaningful(RemoveAt(s[..close], c)) == Some(c - 1)
    requires s[c - 1] != '{' && s[c - 1] != ','
    ensures NeedsComma(RemoveAt(s, c), close - 1) && WithComma(RemoveAt(s, c), close - 1) == s
  {
    WithoutInHead(s, close, c);
    assert InsertComma(RemoveAt(s, c), c) == s;
  }

  /** With the trailing comma dropped, an install puts it back exactly when it directly followed an entry. */
  lemma CommaIsPutBackExactly(s: string, close: nat, c: nat)
    requires close <= |s| && LastMeaningful(s[..close]) == Some(c) && s[c] == ','
    ensures (NeedsComma(RemoveAt(s, c), close - 1) && WithComma(RemoveAt(s, c), close - 1) == s) <==> FollowsEntry(s[..close], c)
  {
    var head, u := s[..close], RemoveAt(s, c);
    CommaUncovers(head, c);
    if FollowsEntry(head, c) {
      PutBackWhereItWas(s, close, c);
    } else if NeedsComma(u, close - 1) && WithComma(u, close - 1) == s {
      WithoutInHead(s, close, c);
      var last := LastMeaningful(u[..close - 1]).value;
      CommasBetween(s, c, last + 1);
      PutBackMeansLast(head, c, last);
    }
  }

  /** From one character less: the same text again exactly when the comma makes the same text. */
  lemma SecondInstall(m: Markers, s: string, close: nat, rows: string, e: string, u: string)
    requires AreMarkers(m)
    requires 0 < close <= |s| && '\n' in s[..close] && |u| == |s| - 1
    requires e == WithBlock(m, s, close, rows) && Removal(m, e) == Ok(u)
    requires FindLast(u, '}') == Some(close - 1) && '\n' in u[..close - 1]
    ensures NeedsComma(u, close - 1) ==> (Entry(m, e, rows) == Ok(e) <==> WithComma(u, close - 1) == s)
    ensures !NeedsComma(u, close - 1) ==> Entry(m, e, rows) != Ok(e)
  {
    Reinstalled(m, e, rows, u, close - 1);
    if NeedsComma(u, close - 1) {
      CommaMovesTheBrace(u, close - 1);
      SameTextSameInsertion(m, WithComma(u, close - 1), s, close, rows);
    } else {
      LengthsDiffer(m, e, s, close, rows, u, close - 1);
    }
  }

  /** What an install makes of `s`. */
  function Installed(m: Markers, s: string, close: nat, rows: string): string
    requires close <= |s|
  {
    var t := WithComma(s, close);
    var brace := FindLast(t, '}');
    if brace.Some? then WithBlock(m, t, brace.value, rows) else t
  }

  ghost predicate Stays(m: Markers, s: string, close: nat, rows: string)
    requires close <= |s|
  {
    Entry(m, Installed(m, s, close, rows), rows) == Ok(Installed(m, s, close, rows))
  }

  lemma InstallIsEntry(m: Markers, s: string, rows: string, close: nat)
    requires AreMarkers(m)
    requires IsUnmarked(m, s) && FindLast(s, '}') == Some(close)
    ensures Entry(m, s, rows) == Ok(Installed(m, s, close, rows))
  {
    SeparatedText(s, close);
    EntryIs(m, s, rows, close);
  }

  lemma RestorableStays(m: Markers, s: string, close: nat, rows: string)
    requires AreMarkers(m)
    requires IsUnmarked(m, s) && HasNoSlashPair(rows) && FindLast(s, '}') == Some(close) && IsRestorable(s, close)
    ensures Stays(m, s, close, rows)
  {
    InstallIsEntry(m, s, rows, close);
    RemovalUndoesEntry(m, s, rows, close);
    UnmarkedIsKept(m, s);
    SameRemovalSameEntry(m, Installed(m, s, close, rows), s, rows);
  }

  lemma UnmarkedIsKept(m: Markers, s: string)
    requires AreMarkers(m)
    requires IsUnmarked(m, s)
    ensures Removal(m, s) == Ok(s)
  {
    assert Find(s, m.start).None?;
  }

  lemma SameRemovalSameEntry(m: Markers, a: string, b: string, rows: string)
    requires AreMarkers(m)
    requires Removal(m, a) == Removal(m, b)
    ensures Entry(m, a, rows) == Entry(m, b, rows)
  {
  }

  lemma FirstLineChanges(m: Markers, s: string, close: nat, rows: string)
    requires AreMarkers(m)
    requires FindLast(s, '}') == Some(close) && 0 < close && '\n' !in s[..close]
    requires IsUnmarked(m, s) && HasNoSlashPair(rows)
    ensures !Stays(m, s, close, rows)
  {
    SeparatedIsUnmarked(m, s, close);
    if NeedsComma(s, close) {
      CommaMovesTheBrace(s, close);
      FirstLineIsUnstable(m, WithComma(s, close), close + 1, rows);
    } else {
      FirstLineIsUnstable(m, s, close, rows);
    }
  }

  lemma InstalledWithComma(m: Markers, s: string, close: nat, rows: string)
    requires AreMarkers(m)
    requires FindLast(s, '}') == Some(close) && NeedsComma(s, close)
    ensures |WithComma(s, close)| > close && Installed(m, s, close, rows) == WithBlock(m, WithComma(s, close), close + 1, rows)
  {
    CommaMovesTheBrace(s, close);
  }

  /** An install that leaves an entry in need of another comma changes its own result. */
  lemma GrowingChanges(m: Markers, s: string, close: nat, rows: string)
    requires AreMarkers(m) && IsUnmarked(m, s) && HasNoSlashPair(rows)
    requires FindLast(s, '}') == Some(close) && '\n' in s[..close] && NeedsComma(s, close)
    requires FindLast(WithComma(s, close), '}') == Some(close + 1)
    requires NeedsComma(WithComma(s, close), close + 1) && DropTrailingComma(WithComma(s, close)) == WithComma(s, close)
    ensures !Stays(m, s, close, rows)
  {
    SeparatedIsUnmarked(m, s, close);
    NewlineStays(s, close);
    InstalledWithComma(m, s, close, rows);
    SecondCommaIsAdded(m, WithComma(s, close), close + 1, rows);
  }

  lemma OpenStringChanges(m: Markers, s: string, close: nat, rows: string)
    requires AreMarkers(m)
    requires FindLast(s, '}') == Some(close) && '\n' in s[..close] && EndsInString(s[..close])
    requires IsUnmarked(m, s) && HasNoSlashPair(rows)
    ensures !Stays(m, s, close, rows)
  {
    OpenQuoteStaysLast(s, close);
    GrowingChanges(m, s, close, rows);
  }

  lemma OwnCommaStays(m: Markers, s: string, close: nat, rows: string)
    requires AreMarkers(m)
    requires FindLast(s, '}') == Some(close) && '\n' in s[..close] && HasOwnComma(s, close)
    requires IsUnmarked(m, s) && HasNoSlashPair(rows)
    ensures Stays(m, s, close, rows) <==> FollowsEntry(s[..close], LastMeaningful(s[..close]).value)
  {
    assert WithComma(s, close) == s;
    OwnCommaStability(m, s, close, rows);
  }

  /** Installing again changes nothing exactly when the last brace is not on a first line with text before
      it, no string is open before it, and a trailing comma of the file's own stands where an install
      would have put one. */
  lemma EntryIsIdempotent(m: Markers, s: string, rows: string, close: nat)
    requires AreMarkers(m)
    requires IsUnmarked(m, s) && HasNoSlashPair(rows) && FindLast(s, '}') == Some(close)
    ensures Entry(m, s, rows).Ok?
    ensures Entry(m, Entry(m, s, rows).value, rows) == Entry(m, s, rows) <==> IsStable(s, close)
  {
    InstallIsEntry(m, s, rows, close);
    RestorableIsStable(s, close);
    if IsRestorable(s, close) {
      RestorableStays(m, s, close, rows);
    } else if close > 0 && '\n' !in s[..close] {
      FirstLineChanges(m, s, close, rows);
    } else if EndsInString(s[..close]) {
      OpenStringChanges(m, s, close, rows);
    } else {
      OwnCommaStays(m, s, close, rows);
    }
  }

  /** What an install leaves in the file: the file's own text, its last entry separated, with the marker
      lines and the rows between them on lines of their own before the brace. */
  lemma InstalledText(m: Markers, s: string, rows: string, close: nat) returns (before: string, after: string)
    requires AreMarkers(m) && IsUnmarked(m, s) && FindLast(s, '}') == Some(close)
    ensures Entry(m, s, rows) ==
            Ok(before + ("  " + m.start + "\n" + rows + "\n  " + m.end + "\n") + after)
    ensures before + after == WithComma(s, close)
    ensures IsBeforeTheBrace(before, after, '\n' in s[..close])
  {
    InstallIsEntry(m, s, rows, close);
    NewlinesBefore(s, close);
    var t := WithComma(s, close);
    var brace := FindLast(t, '}').value;
    var p := BlockPosition(t, brace);
    before, after := t[..p], t[p..];
    InstalledParts(t, brace);
  }

  /** The text is cut at the start of the last brace's line, or right before that brace on a first line. */
  ghost predicate IsBeforeTheBrace(before: string, after: string, hasLines: bool) {
    var brace := FindLast(after, '}');
    && brace.Some? && '\n' !in after[..brace.value]
    && (hasLines ==> before != "" && before[|before| - 1] == '\n')
    && (!hasLines ==> brace.value == 0)
  }

  lemma InstalledParts(t: string, brace: nat)
    requires FindLast(t, '}') == Some(brace)
    ensures var p := BlockPosition(t, brace);
            t[..p] + t[p..] == t && IsBeforeTheBrace(t[..p], t[p..], '\n' in t[..brace])
  {
    BraceOfAfter(t, brace, BlockPosition(t, brace));
    LineOfBlock(t, brace);
  }

  lemma NewlinesBefore(s: string, close: nat)
    requires FindLast(s, '}') == Some(close)
    ensures FindLast(WithComma(s, close), '}').Some?
    ensures '\n' in WithComma(s, close)[..FindLast(WithComma(s, close), '}').value] <==> '\n' in s[..close]
  {
    if NeedsComma(s, close) {
      CommaMovesTheBrace(s, close);
    }
  }

  lemma BraceOfAfter(t: string, brace: nat, p: nat)
    requires FindLast(t, '}') == Some(brace) && p <= brace
    ensures FindLast(t[p..], '}') == Some(brace - p)
  {
    assert t[p..][brace - p] == t[brace];
    assert forall k | brace - p < k < |t[p..]| :: t[p..][k] == t[p + k];
  }

  /** The block starts the brace's line, or stands right before the brace on the first line. */
  lemma LineOfBlock(t: string, brace: nat)
    requires brace < |t|
    ensures var p := BlockPosition(t, brace);
            && '\n' !in t[p..][..brace - p]
            && ('\n' in t[..brace] ==> 0 < p && t[..p][p - 1] == '\n')
            && ('\n' !in t[..brace] ==> p == brace)
  {
    var p := BlockPosition(t, brace);
    var newline := FindLast(t[..brace], '\n');
    assert forall k | 0 <= k < brace :: t[..brace][k] == t[k];
    var gap := t[p..][..brace - p];
    assert forall k | 0 <= k < |gap| :: gap[k] == t[p + k];
    if newline.Some? {
      assert t[..brace][newline.value] in t[..brace];
    }
  }

  /** A one-line object is not restorable: removal takes its opening brace with the block. */
  lemma OneLineObjectIsNotRestored(m: Markers, rows: string)
    requires AreMarkers(m)
    requires HasNoSlashPair(rows)
    ensures Entry(m, "{}", rows).Ok? && Removal(m, Entry(m, "{}", rows).value) == Ok("}")
  {
    var s := "{}";
    assert s[..1] == "{" && ModeAt("{", 0) == Code;
    assert LastMeaningful("{") == Some(0);
    assert FindLast(s, '}') == Some(1);
    assert IsUnmarked(m, s);
    assert Removal(m, s) == Ok(s);
    assert WithComma(s, 1) == s;
    EntryIs(m, s, rows, 1);
    CuttingTheBlock(m, s, 1, rows);
    assert FindLast("{", '\n').None?;
    assert s[1..] == "}";
    assert FindLast("}", '}') == Some(0);
    assert DropTrailingComma("}") == "}";
  }
}
