/** The comment- and string-aware scan of crates/cli/src/setup/menu.rs: where the last character that is
    neither whitespace nor comment is. */
module MenuLexer {
  import opened Prelude
  import opened Text

  /** What the scan is inside of. */
  datatype Mode = Code | Quoted | Escaped | LineComment | BlockComment(previous: char)

  function Next(m: Mode, c: char, peek: Option<char>): Mode {
    match m
    case Code =>
      if c == '"' then Quoted
      else if c == '/' && peek == Some('/') then LineComment
      else if c == '/' && peek == Some('*') then BlockComment(' ')
      else Code
    case Quoted => if c == '\\' then Escaped else if c == '"' then Code else Quoted
    case Escaped => Quoted
    case LineComment => if c == '\n' then Code else LineComment
    case BlockComment(previous) => if previous == '*' && c == '/' then Code else BlockComment(c)
  }

  predicate StartsComment(c: char, peek: Option<char>) {
    c == '/' && (peek == Some('/') || peek == Some('*'))
  }

  /** The scan takes the character as meaningful: a quote that opens or closes a string, or anything
      outside strings and comments that is not whitespace. */
  predicate Marks(m: Mode, c: char, peek: Option<char>) {
    match m
    case Code => c == '"' || (!StartsComment(c, peek) && !IsWhitespace(c))
    case Quoted => c == '"'
    case _ => false
  }

  function Peek(s: string, k: nat): Option<char> {
    if k + 1 < |s| then Some(s[k + 1]) else None
  }

  /** What the scan is inside of before character `k`. */
  function ModeAt(s: string, k: nat): Mode
    requires k <= |s|
  {
    if k == 0 then Code else Next(ModeAt(s, k - 1), s[k - 1], Peek(s, k - 1))
  }

  predicate IsMeaningful(s: string, k: nat)
    requires k < |s|
  {
    Marks(ModeAt(s, k), s[k], Peek(s, k))
  }

  /** The last meaningful position before `n`. */
  function LastBelow(s: string, n: nat): (r: Option<nat>)
    requires n <= |s|
    ensures r.Some? ==> r.value < n && IsMeaningful(s, r.value) && forall k | r.value < k < n :: !IsMeaningful(s, k)
    ensures r.None? ==> forall k | 0 <= k < n :: !IsMeaningful(s, k)
  {
    if n == 0 then None else if IsMeaningful(s, n - 1) then Some(n - 1) else LastBelow(s, n - 1)
  }

  function LastMeaningful(s: string): Option<nat> {
    LastBelow(s, |s|)
  }

  /** The text ends inside a string. */
  predicate EndsInString(s: string) {
    ModeAt(s, |s|).Quoted? || ModeAt(s, |s|).Escaped?
  }

  /** The loop that skips a line comment. */
  method SkipLine(source: string, from: nat) returns (next: nat)
    requires from <= |source| && ModeAt(source, from) == LineComment
    ensures from <= next <= |source| && LastBelow(source, next) == LastBelow(source, from)
    ensures next < |source| ==> ModeAt(source, next) == Code
  {
    next := from;
    while next < |source|
      invariant from <= next <= |source|
      invariant LastBelow(source, next) == LastBelow(source, from)
      invariant ModeAt(source, next) == LineComment
    {
      var skipped := source[next];
      next := next + 1;
      if skipped == '\n' {
        break;
      }
    }
  }

  /** The loop that skips a block comment. */
  method SkipBlock(source: string, from: nat) returns (next: nat)
    requires from <= |source| && ModeAt(source, from) == BlockComment(' ')
    ensures from <= next <= |source| && LastBelow(source, next) == LastBelow(source, from)
    ensures next < |source| ==> ModeAt(source, next) == Code
  {
    next := from;
    var previous := ' ';
    while next < |source|
      invariant from <= next <= |source|
      invariant LastBelow(source, next) == LastBelow(source, from)
      invariant ModeAt(source, next) == BlockComment(previous)
    {
      var skipped := source[next];
      next := next + 1;
      if previous == '*' && skipped == '/' {
        break;
      }
      previous := skipped;
    }
  }

  /** The source's scan, with its two flags and its comment-skipping inner loops. */
  method Scan(source: string) returns (found: Option<nat>)
    ensures found == LastMeaningful(source)
  {
    found := None;
    var inString, escaped := false, false;
    var next: nat := 0;
    while next < |source|
      invariant next <= |source|
      invariant found == LastBelow(source, next)
      invariant next < |source| ==>
          ModeAt(source, next) == if inString then (if escaped then Escaped else Quoted) else Code
      invariant !inString ==> !escaped
    {
      var index, character := next, source[next];
      next := next + 1;
      if inString {
        if escaped {
          escaped := false;
        } else if character == '\\' {
          escaped := true;
        } else if character == '"' {
          inString := false;
          found := Some(index);
        }
        continue;
      }
      if character == '"' {
        inString := true;
        found := Some(index);
      } else if character == '/' && Peek(source, index) == Some('/') {
        next := SkipLine(source, next);
      } else if character == '/' && Peek(source, index) == Some('*') {
        next := SkipBlock(source, next);
      } else if !IsWhitespace(character) {
        found := Some(index);
      }
    }
  }

  // ---------------------------------------------------------------------
  // Inserting a comma after the last meaningful character
  // ---------------------------------------------------------------------

  /** Nothing meaningful from `k` on keeps an open string open. */
  lemma {:induction false} StaysQuoted(s: string, k: nat, n: nat)
    requires k <= n <= |s|
    requires ModeAt(s, k).Quoted? || ModeAt(s, k).Escaped?
    requires forall j | k <= j < n :: !IsMeaningful(s, j)
    ensures ModeAt(s, n).Quoted? || ModeAt(s, n).Escaped?
  {
    if k < n {
      assert !IsMeaningful(s, n - 1);
      StaysQuoted(s, k, n - 1);
    }
  }

  /** And keeps a closed one closed. */
  lemma {:induction false} StaysUnquoted(s: string, k: nat, n: nat)
    requires k <= n <= |s|
    requires !ModeAt(s, k).Quoted? && !ModeAt(s, k).Escaped?
    requires forall j | k <= j < n :: !IsMeaningful(s, j)
    ensures !ModeAt(s, n).Quoted? && !ModeAt(s, n).Escaped?
  {
    if k < n {
      assert !IsMeaningful(s, n - 1);
      StaysUnquoted(s, k, n - 1);
    }
  }

  /** After the last meaningful character the scan is outside strings and comments, unless that
      character opened a string the text never closes. */
  lemma ModeAfterLast(s: string, i: nat)
    requires LastMeaningful(s) == Some(i)
    ensures ModeAt(s, i + 1) == (if EndsInString(s) then Quoted else Code)
    ensures EndsInString(s) ==> s[i] == '"' && ModeAt(s, i) == Code
  {
    if ModeAt(s, i + 1) == Quoted {
      StaysQuoted(s, i + 1, |s|);
    } else {
      assert ModeAt(s, i + 1) == Code;
      StaysUnquoted(s, i + 1, |s|);
    }
  }

  lemma NothingMeaningfulNoString(s: string)
    requires LastMeaningful(s).None?
    ensures !EndsInString(s)
  {
    StaysUnquoted(s, 0, |s|);
  }

  function InsertComma(s: string, at: nat): string
    requires at <= |s|
  {
    s[..at] + "," + s[at..]
  }

  /** The scan of the longer text: unchanged up to the comma, shifted by one after it. */
  lemma {:induction false} ModeBeforeComma(s: string, i: nat, k: nat)
    requires i < |s| && IsMeaningful(s, i) && k <= i + 1
    ensures ModeAt(InsertComma(s, i + 1), k) == ModeAt(s, k)
    ensures k <= i ==> IsMeaningful(InsertComma(s, i + 1), k) == IsMeaningful(s, k)
    decreases k
  {
    var t := InsertComma(s, i + 1);
    assert forall j | 0 <= j <= i :: t[j] == s[j];
    assert t[i + 1] == ',';
    if k > 0 {
      ModeBeforeComma(s, i, k - 1);
    }
  }

  lemma {:induction false} ModeAfterComma(s: string, i: nat, k: nat)
    requires LastMeaningful(s) == Some(i) && i + 1 <= k <= |s|
    ensures ModeAt(InsertComma(s, i + 1), k + 1) == ModeAt(s, k)
    ensures k < |s| ==> IsMeaningful(InsertComma(s, i + 1), k + 1) == IsMeaningful(s, k)
    decreases k
  {
    var t := InsertComma(s, i + 1);
    ModeAfterLast(s, i);
    assert t[i + 1] == ',' && forall j | i + 1 <= j < |s| :: t[j + 1] == s[j];
    if k == i + 1 {
      ModeBeforeComma(s, i, i + 1);
    } else {
      ModeAfterComma(s, i, k - 1);
    }
  }

  /** The scan's answer moves to exactly the inserted comma, or stays on the quote of an unclosed string. */
  lemma CommaBecomesLast(s: string, i: nat)
    requires LastMeaningful(s) == Some(i)
    ensures LastMeaningful(InsertComma(s, i + 1)) == Some(if EndsInString(s) then i else i + 1)
  {
    var t := InsertComma(s, i + 1);
    ModeAfterLast(s, i);
    ModeBeforeComma(s, i, i + 1);
    ModeBeforeComma(s, i, i);
    forall k | i + 2 <= k < |t|
      ensures !IsMeaningful(t, k)
    {
      ModeAfterComma(s, i, k - 1);
    }
    assert t[i + 1] == ',';
    assert IsMeaningful(t, i + 1) <==> !EndsInString(s);
  }

  // ---------------------------------------------------------------------
  // Dropping a comma that is the last meaningful character
  // ---------------------------------------------------------------------

  predicate OpensComment(s: string, c: nat)
    requires c < |s|
  {
    c + 1 < |s| && (s[c + 1] == '/' || s[c + 1] == '*')
  }

  /** The comma at `c` directly follows the end of an entry: a meaningful character that is no brace or
      comma, nor a slash that would make a comment of what follows the comma. */
  predicate FollowsEntry(s: string, c: nat)
    requires c < |s|
  {
    && 0 < c && IsMeaningful(s, c - 1)
    && s[c - 1] != '{' && s[c - 1] != ','
    && !(s[c - 1] == '/' && OpensComment(s, c))
  }

  lemma {:induction false} ModeBeforeDrop(s: string, c: nat, k: nat)
    requires 0 < c < |s| && k <= c - 1
    ensures ModeAt(RemoveAt(s, c), k) == ModeAt(s, k)
    ensures k < c - 1 ==> IsMeaningful(RemoveAt(s, c), k) == IsMeaningful(s, k)
  {
    if k > 0 {
      ModeBeforeDrop(s, c, k - 1);
    }
  }

  /** Without the comma the slash before it starts a comment. */
  predicate JoinsComment(s: string, c: nat)
    requires c < |s|
  {
    0 < c && ModeAt(s, c - 1) == Code && s[c - 1] == '/' && OpensComment(s, c)
  }

  lemma MeaningfulCommaIsCode(s: string, c: nat)
    requires c < |s| && s[c] == ',' && IsMeaningful(s, c)
    ensures ModeAt(s, c) == Code && ModeAt(s, c + 1) == Code
    ensures c > 0 && s[c - 1] == ',' ==> IsMeaningful(s, c - 1)
  {
  }

  lemma ModeAtDrop(s: string, c: nat)
    requires c < |s| && s[c] == ',' && IsMeaningful(s, c) && !JoinsComment(s, c)
    ensures ModeAt(RemoveAt(s, c), c) == Code
    ensures 0 < c ==> IsMeaningful(RemoveAt(s, c), c - 1) == IsMeaningful(s, c - 1)
  {
    MeaningfulCommaIsCode(s, c);
    if 0 < c {
      ModeBeforeDrop(s, c, c - 1);
      var u := RemoveAt(s, c);
      assert u[c - 1] == s[c - 1] && Peek(u, c - 1) == (if c + 1 < |s| then Some(s[c + 1]) else None);
    }
  }

  lemma {:induction false} ModeAfterDrop(s: string, c: nat, k: nat)
    requires c < |s| && s[c] == ',' && IsMeaningful(s, c) && !JoinsComment(s, c)
    requires c <= k < |s|
    ensures ModeAt(RemoveAt(s, c), k) == ModeAt(s, k + 1)
    ensures k < |s| - 1 ==> IsMeaningful(RemoveAt(s, c), k) == IsMeaningful(s, k + 1)
    decreases k
  {
    if k == c {
      MeaningfulCommaIsCode(s, c);
      ModeAtDrop(s, c);
    } else {
      ModeAfterDrop(s, c, k - 1);
    }
  }

  /** With no comment joined, nothing after the dropped comma becomes meaningful. */
  lemma LastAfterDrop(s: string, c: nat)
    requires LastMeaningful(s) == Some(c) && s[c] == ',' && !JoinsComment(s, c)
    ensures var last := LastMeaningful(RemoveAt(s, c)); last.Some? ==> last.value < c
    ensures 0 < c && IsMeaningful(s, c - 1) ==> LastMeaningful(RemoveAt(s, c)) == Some(c - 1)
    ensures 0 < c && !IsMeaningful(s, c - 1) ==> LastMeaningful(RemoveAt(s, c)) != Some(c - 1)
  {
    ModeAtDrop(s, c);
    forall k | c <= k < |RemoveAt(s, c)|
      ensures !IsMeaningful(RemoveAt(s, c), k)
    {
      ModeAfterDrop(s, c, k);
    }
  }

  /** A slash that joins a comment is not meaningful any more. */
  lemma JoinedSlash(s: string, c: nat)
    requires c < |s| && s[c] == ',' && JoinsComment(s, c)
    ensures LastMeaningful(RemoveAt(s, c)) != Some(c - 1)
  {
    ModeBeforeDrop(s, c, c - 1);
    var u := RemoveAt(s, c);
    assert u[c - 1] == '/' && Peek(u, c - 1) == Some(s[c + 1]);
  }

  /** The scan's answer once the comma is gone is the character right before it, exactly when that is
      meaningful and joins no comment. */
  lemma CommaUncovers(s: string, c: nat)
    requires LastMeaningful(s) == Some(c) && s[c] == ','
    ensures (0 < c && LastMeaningful(RemoveAt(s, c)) == Some(c - 1)) <==>
            (0 < c && IsMeaningful(s, c - 1) && !(s[c - 1] == '/' && OpensComment(s, c)))
  {
    if JoinsComment(s, c) {
      JoinedSlash(s, c);
    } else {
      LastAfterDrop(s, c);
    }
  }
}
