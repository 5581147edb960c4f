/** Adding and removing the managed block of the menu file as text (crates/cli/src/setup/menu.rs). */
module MenuEdit {
  import opened Prelude
  import opened MenuLexer

  /** The lines around the managed block. */
  datatype Markers = Markers(start: string, end: string)

  datatype EditError = MalformedBlock | NoClosingBrace

  // ---------------------------------------------------------------------
  // Searching
  // ---------------------------------------------------------------------

  predicate OccursAt(s: string, pattern: string, i: nat) {
    i + |pattern| <= |s| && s[i..i + |pattern|] == pattern
  }

  /** `find` from `k` on. */
  function FindFrom(s: string, pattern: string, k: nat): (r: Option<nat>)
    requires k <= |s|
    ensures r.Some? ==> k <= r.value && OccursAt(s, pattern, r.value) && forall i | k <= i < r.value :: !OccursAt(s, pattern, i)
    ensures r.None? ==> forall i: nat | k <= i :: !OccursAt(s, pattern, i)
    decreases |s| - k
  {
    if OccursAt(s, pattern, k) then Some(k)
    else if k == |s| then None
    else FindFrom(s, pattern, k + 1)
  }

  function Find(s: string, pattern: string): Option<nat> {
    FindFrom(s, pattern, 0)
  }

  /** `rfind` of one character. */
  function FindLast(s: string, c: char): (r: Option<nat>)
    ensures r.Some? ==> r.value < |s| && s[r.value] == c && forall k | r.value < k < |s| :: s[k] != c
    ensures r.None? ==> forall k | 0 <= k < |s| :: s[k] != c
  {
    if s == "" then None
    else if s[|s| - 1] == c then Some(|s| - 1)
    else FindLast(s[..|s| - 1], c)
  }

  /** Where the line holding position `k` starts, or `otherwise` on the first line. */
  function LineStart(s: string, k: nat, otherwise: nat): (r: nat)
    requires otherwise <= k <= |s|
    ensures r <= k
  {
    var newline := FindLast(s[..k], '\n');
    if newline.Some? then newline.value + 1 else otherwise
  }

  /** Where the line holding position `k` ends, its newline included. */
  function LineEnd(s: string, k: nat): (r: nat)
    requires k <= |s|
    ensures k <= r <= |s|
  {
    var newline := FindFrom(s, "\n", k);
    if newline.Some? then newline.value + 1 else |s|
  }

  // ---------------------------------------------------------------------
  // The edits
  // ---------------------------------------------------------------------

  /** The managed block around the text of its rows. */
  function Block(m: Markers, rows: string): string {
    "  " + m.start + "\n" + rows + "\n  " + m.end + "\n"
  }

  /** Removes the comma before the closing brace, if one is there. */
  function DropTrailingComma(s: string): string {
    var close := FindLast(s, '}');
    if close.None? then s
    else
      var last := LastMeaningful(s[..close.value]);
      if last.Some? && s[last.value] == ',' then s[..last.value] + s[last.value + 1..] else s
  }

  function Removal(m: Markers, source: string): Result<string, EditError> {
    var start, end := Find(source, m.start), Find(source, m.end);
    if start.None? || end.None? then Ok(source)
    else if start.value > end.value then Err(MalformedBlock)
    else
      var lineStart := LineStart(source, start.value, 0);
      var lineEnd := LineEnd(source, end.value);
      Ok(DropTrailingComma(source[..lineStart] + source[lineEnd..]))
  }

  /** The last entry before the brace at `close` has no comma after it. */
  predicate NeedsComma(s: string, close: nat)
    requires close <= |s|
  {
    var last := LastMeaningful(s[..close]);
    last.Some? && s[last.value] != '{' && s[last.value] != ','
  }

  /** Gives the entry before the closing brace at `close` the comma it now needs. */
  function WithComma(s: string, close: nat): string
    requires close <= |s|
  {
    if NeedsComma(s, close) then InsertComma(s, LastMeaningful(s[..close]).value + 1) else s
  }

  /** The start of the brace's line, or the brace itself on the first line. */
  function BlockPosition(t: string, close: nat): (r: nat)
    requires close <= |t|
    ensures r <= close
  {
    if FindLast(t[..close], '\n').Some? then LineStart(t, close, 0) else close
  }

  function WithBlock(m: Markers, s: string, close: nat, rows: string): string
    requires close <= |s|
  {
    s[..BlockPosition(s, close)] + Block(m, rows) + s[BlockPosition(s, close)..]
  }

  function Entry(m: Markers, source: string, rows: string): Result<string, EditError> {
    var removed := Removal(m, source);
    if removed.Err? then removed
    else
      var close := FindLast(removed.value, '}');
      if close.None? then Err(NoClosingBrace)
      else
        var separated := WithComma(removed.value, close.value);
        var closeNow := FindLast(separated, '}');
        if closeNow.None? then Err(NoClosingBrace)
        else Ok(WithBlock(m, separated, closeNow.value, rows))
  }

  method RenderRemoval(m: Markers, source: string) returns (r: Result<string, EditError>)
    ensures r == Removal(m, source)
  {
    var start, end := Find(source, m.start), Find(source, m.end);
    if start.None? || end.None? {
      return Ok(source);
    }
    if start.value > end.value {
      return Err(MalformedBlock);
    }
    var rendered := source;
    var lineStart := LineStart(rendered, start.value, 0);
    var lineEnd := LineEnd(rendered, end.value);
    rendered := rendered[..lineStart] + rendered[lineEnd..];
    var close := FindLast(rendered, '}');
    if close.Some? {
      var last := Scan(rendered[..close.value]);
      if last.Some? && rendered[last.value] == ',' {
        rendered := rendered[..last.value] + rendered[last.value + 1..];
      }
    }
    r := Ok(rendered);
  }

  /** The comma step of the source, on the text being edited. */
  method SeparateLastEntry(text: string, close: nat) returns (rendered: string)
    requires close <= |text|
    ensures rendered == WithComma(text, close)
  {
    rendered := text;
    var last := Scan(rendered[..close]);
    if last.Some? && rendered[last.value] != '{' && rendered[last.value] != ',' {
      rendered := InsertComma(rendered, last.value + 1);
    }
  }

  method RenderEntry(m: Markers, source: string, rows: string) returns (r: Result<string, EditError>)
    ensures r == Entry(m, source, rows)
  {
    var removed := RenderRemoval(m, source);
    if removed.Err? {
      return removed;
    }
    var rendered := removed.value;
    var close := FindLast(rendered, '}');
    if close.None? {
      return Err(NoClosingBrace);
    }
    rendered := SeparateLastEntry(rendered, close.value);
    close := FindLast(rendered, '}');
    if close.None? {
      return Err(NoClosingBrace);
    }
    r := Ok(WithBlock(m, rendered, close.value, rows));
  }
}
