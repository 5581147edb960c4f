/** The pieces of text handling the source takes from Rust's standard library. */
module Text {
  import opened Prelude

  // ---------------------------------------------------------------------
  // Separated fields: `split(sep)`
  // ---------------------------------------------------------------------

  function Split(s: string, sep: char): (r: seq<string>)
    ensures |r| > 0
    ensures forall f | f in r :: sep !in f
  {
    if s == [] then [""]
    else
      var rest := Split(s[1..], sep);
      if s[0] == sep then [""] + rest
      else
        assert forall f | f in rest[1..] :: f in rest;
        [[s[0]] + rest[0]] + rest[1..]
  }

  function Join(fields: seq<string>, sep: char): string
    requires |fields| > 0
  {
    if |fields| == 1 then fields[0] else fields[0] + [sep] + Join(fields[1..], sep)
  }

  lemma {:induction false} JoinSplit(s: string, sep: char)
    ensures Join(Split(s, sep), sep) == s
  {
    if s != [] {
      JoinSplit(s[1..], sep);
      var rest := Split(s[1..], sep);
      if s[0] == sep {
        assert ([""] + rest)[1..] == rest;
      } else {
        assert ([[s[0]] + rest[0]] + rest[1..])[1..] == rest[1..];
      }
    }
  }

  /** Splitting at the first separator: what precedes it is the first field. */
  lemma {:induction false} SplitFirst(head: string, tail: string, sep: char)
    requires sep !in head
    ensures Split(head + [sep] + tail, sep) == [head] + Split(tail, sep)
  {
    var s := head + [sep] + tail;
    if head == [] {
      assert s[1..] == tail;
    } else {
      assert s[1..] == head[1..] + [sep] + tail;
      SplitFirst(head[1..], tail, sep);
      assert [head[0]] + head[1..] == head;
    }
  }

  lemma {:induction false} SplitWhole(s: string, sep: char)
    requires sep !in s
    ensures Split(s, sep) == [s]
  {
    if s != [] {
      SplitWhole(s[1..], sep);
      assert [s[0]] + s[1..] == s;
    }
  }

  lemma {:induction false} SplitJoin(fields: seq<string>, sep: char)
    requires |fields| > 0
    requires forall f | f in fields :: sep !in f
    ensures Split(Join(fields, sep), sep) == fields
  {
    if |fields| == 1 {
      SplitWhole(fields[0], sep);
    } else {
      SplitJoin(fields[1..], sep);
      SplitFirst(fields[0], Join(fields[1..], sep), sep);
    }
  }

  // ---------------------------------------------------------------------
  // Whitespace-separated tokens: `split_ascii_whitespace`
  // ---------------------------------------------------------------------

  predicate IsAsciiWhitespace(c: char) {
    c == ' ' || c == '\t' || c == '\n' || c == '\r' || c == 12 as char
  }

  /** Non-empty, with no ASCII whitespace. */
  predicate IsToken(s: string) {
    s != "" && forall c | c in s :: !IsAsciiWhitespace(c)
  }

  function Tokens(s: string): (r: seq<string>)
    ensures forall t | t in r :: IsToken(t)
  {
    TokensAfter("", s)
  }

  /** The tokens of `partial + s` where `partial` is the token being read. */
  function TokensAfter(partial: string, s: string): (r: seq<string>)
    requires forall c | c in partial :: !IsAsciiWhitespace(c)
    ensures forall t | t in r :: IsToken(t)
    decreases |s|
  {
    if s == [] then
      if partial == "" then [] else [partial]
    else if IsAsciiWhitespace(s[0]) then
      (if partial == "" then [] else [partial]) + TokensAfter("", s[1..])
    else
      TokensAfter(partial + [s[0]], s[1..])
  }

  lemma {:induction false} TokensOfWord(partial: string, word: string, rest: string)
    requires forall c | c in partial + word :: !IsAsciiWhitespace(c)
    ensures forall c | c in partial :: !IsAsciiWhitespace(c)
    ensures TokensAfter(partial, word + rest) == TokensAfter(partial + word, rest)
    decreases |word|
  {
    assert forall c | c in partial :: c in partial + word;
    if word == [] {
      assert word + rest == rest && partial + word == partial;
    } else {
      assert (word + rest)[0] == word[0] && (word + rest)[1..] == word[1..] + rest;
      assert partial + [word[0]] + word[1..] == partial + word;
      TokensOfWord(partial + [word[0]], word[1..], rest);
    }
  }

  /** Tokens joined by single spaces read back as themselves. */
  lemma {:induction false} TokensOfJoin(ts: seq<string>)
    requires |ts| > 0 && forall t | t in ts :: IsToken(t)
    ensures Tokens(Join(ts, ' ')) == ts
  {
    var t := ts[0];
    assert t in ts && "" + t == t;
    if |ts| == 1 {
      assert t + "" == t && ts == [t];
      TokensOfWord("", t, "");
    } else {
      var rest := [' '] + Join(ts[1..], ' ');
      assert Join(ts, ' ') == t + rest;
      TokensOfWord("", t, rest);
      assert rest[1..] == Join(ts[1..], ' ');
      TokensOfJoin(ts[1..]);
    }
  }

  /** Unicode's White_Space property: `char::is_whitespace`. */
  predicate IsWhitespace(c: char) {
    var n := c as int;
    || 9 <= n <= 13 || n == 0x20 || n == 0x85 || n == 0xA0 || n == 0x1680
    || 0x2000 <= n <= 0x200A || n == 0x2028 || n == 0x2029 || n == 0x202F || n == 0x205F || n == 0x3000
  }

  predicate IsBlank(s: string) {
    forall c | c in s :: IsWhitespace(c)
  }

  function TrimStart(s: string): string {
    if s != "" && IsWhitespace(s[0]) then TrimStart(s[1..]) else s
  }

  function Trim(s: string): string {
    if s != "" && IsWhitespace(s[|s| - 1]) then Trim(s[..|s| - 1]) else TrimStart(s)
  }

  // ---------------------------------------------------------------------
  // ASCII case
  // ---------------------------------------------------------------------

  predicate IsUpper(c: char) { 'A' <= c <= 'Z' }

  predicate IsLower(c: char) { 'a' <= c <= 'z' }

  predicate IsDigit(c: char) { '0' <= c <= '9' }

  predicate IsAsciiAlphanumeric(c: char) {
    IsUpper(c) || IsLower(c) || IsDigit(c)
  }

  function ToLower(c: char): char {
    if IsUpper(c) then c - 'A' + 'a' else c
  }

  function ToUpper(c: char): char {
    if IsLower(c) then c - 'a' + 'A' else c
  }

  function StripPrefix(s: string, prefix: string): Option<string> {
    if prefix <= s then Some(s[|prefix|..]) else None
  }

  const DIGITS := "0123456789"
  const LOWER := "abcdefghijklmnopqrstuvwxyz"
  const UPPER := "ABCDEFGHIJKLMNOPQRSTUVWXYZ"

  /** The character classes, by their members. */
  lemma CharacterClasses(c: char)
    ensures IsDigit(c) <==> exists i :: 0 <= i < 10 && DIGITS[i] == c
    ensures IsLower(c) <==> exists i :: 0 <= i < 26 && LOWER[i] == c
    ensures IsUpper(c) <==> exists i :: 0 <= i < 26 && UPPER[i] == c
    ensures IsAsciiAlphanumeric(c) <==> IsDigit(c) || IsLower(c) || IsUpper(c)
    ensures IsAsciiWhitespace(c) <==> c in [' ', '\t', '\n', '\r', 12 as char]
  {
    DigitClass(c);
    LowerClass(c);
    UpperClass(c);
  }

  lemma DigitClass(c: char)
    ensures IsDigit(c) <==> exists i :: 0 <= i < 10 && DIGITS[i] == c
  {
    if IsDigit(c) {
      assert DIGITS[c as int - '0' as int] == c;
    }
  }

  lemma LowerClass(c: char)
    ensures IsLower(c) <==> exists i :: 0 <= i < 26 && LOWER[i] == c
  {
    if IsLower(c) {
      assert LOWER[c as int - 'a' as int] == c;
    }
  }

  lemma UpperClass(c: char)
    ensures IsUpper(c) <==> exists i :: 0 <= i < 26 && UPPER[i] == c
  {
    if IsUpper(c) {
      assert UPPER[c as int - 'A' as int] == c;
    }
  }

  /** Changing case exchanges the letters at one place and leaves everything else. */
  lemma CaseChanges(c: char, i: nat)
    requires i < 26
    ensures ToLower(UPPER[i]) == ToLower(LOWER[i]) == LOWER[i]
    ensures ToUpper(UPPER[i]) == ToUpper(LOWER[i]) == UPPER[i]
    ensures !IsLower(c) && !IsUpper(c) ==> ToLower(c) == ToUpper(c) == c
  {
    LettersInOrder(i);
  }

  lemma LettersInOrder(i: nat)
    requires i < 26
    ensures LOWER[i] == (97 + i) as char && UPPER[i] == (65 + i) as char
  {
  }

  /** The code points Unicode calls white space. */
  lemma WhitespaceCodePoints(c: char)
    ensures IsWhitespace(c) <==>
            c as int in {9, 10, 11, 12, 13, 32, 133, 160, 5760,
                         8192, 8193, 8194, 8195, 8196, 8197, 8198, 8199, 8200, 8201, 8202,
                         8232, 8233, 8239, 8287, 12288}
  {
  }

  /** Trimming takes blank text off both ends and no more. */
  lemma {:induction false} TrimsBlanks(s: string) returns (lead: string, trail: string)
    ensures s == lead + Trim(s) + trail && IsBlank(lead) && IsBlank(trail)
    ensures Trim(s) != "" ==> !IsWhitespace(Trim(s)[0]) && !IsWhitespace(Trim(s)[|Trim(s)| - 1])
    decreases |s|
  {
    if s != "" && IsWhitespace(s[|s| - 1]) {
      var t;
      lead, t := TrimsBlanks(s[..|s| - 1]);
      trail := t + [s[|s| - 1]];
      assert s == s[..|s| - 1] + [s[|s| - 1]];
    } else {
      lead := TrimsStart(s);
      trail := "";
    }
  }

  lemma {:induction false} TrimsStart(s: string) returns (lead: string)
    ensures s == lead + TrimStart(s) && IsBlank(lead)
    ensures TrimStart(s) != "" ==> !IsWhitespace(TrimStart(s)[0]) && TrimStart(s)[|TrimStart(s)| - 1] == s[|s| - 1]
  {
    if s != "" && IsWhitespace(s[0]) {
      lead := TrimsStart(s[1..]);
      lead := [s[0]] + lead;
      assert s == [s[0]] + s[1..];
    } else {
      lead := "";
    }
  }

  lemma StripsPrefix(s: string, prefix: string, rest: string)
    ensures StripPrefix(prefix + rest, prefix) == Some(rest)
    ensures StripPrefix(s, prefix).Some? ==> s == prefix + StripPrefix(s, prefix).value
  {
  }
}
