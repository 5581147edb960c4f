/** Device ids derived from names (crates/cli/src/devices.rs). */
module Slugs {
  import opened Prelude
  import opened Text

  // ---------------------------------------------------------------------
  // Words
  // ---------------------------------------------------------------------

  /** The runs of alphanumerics read so far, in lower case, and whether the last one may still grow. */
  datatype Words = Words(all: seq<string>, open: bool)

  function Read(before: Words, c: char): Words {
    if !IsAsciiAlphanumeric(c) then Words(before.all, false)
    else if before.open && before.all != [] then
      var n := |before.all| - 1;
      Words(before.all[..n] + [before.all[n] + [ToLower(c)]], true)
    else Words(before.all + [[ToLower(c)]], true)
  }

  function WordsOf(s: string): Words {
    if s == "" then Words([], false) else Read(WordsOf(s[..|s| - 1]), s[|s| - 1])
  }

  predicate IsWordChar(c: char) {
    IsLower(c) || IsDigit(c)
  }

  /** A non-empty run of lower-case letters and digits. */
  predicate IsWord(w: string) {
    w != "" && forall c | c in w :: IsWordChar(c)
  }

  predicate AreWords(ws: seq<string>) {
    forall w | w in ws :: IsWord(w)
  }

  lemma {:induction false} WordsAreWords(s: string)
    ensures AreWords(WordsOf(s).all)
    ensures WordsOf(s).open ==> WordsOf(s).all != []
    ensures WordsOf(s).open <==> s != "" && IsAsciiAlphanumeric(s[|s| - 1])
    ensures WordsOf(s).all == [] <==> forall c | c in s :: !IsAsciiAlphanumeric(c)
  {
    if s != "" {
      var front, c := s[..|s| - 1], s[|s| - 1];
      WordsAreWords(front);
      assert s == front + [c];
      assert c in s && forall x :: x in s <==> x in front || x == c;
      var before := WordsOf(front).all;
      if before != [] {
        assert before[|before| - 1] in before;
      }
    }
  }

  /** The slug of a name: its words joined by single dashes, or None when it has none. */
  function Slug(name: string): Option<string> {
    var words := WordsOf(name).all;
    if words == [] then None else Some(Join(words, '-'))
  }

  // ---------------------------------------------------------------------
  // The loop
  // ---------------------------------------------------------------------

  lemma {:induction false} JoinAppend(ws: seq<string>, w: string)
    requires ws != []
    ensures Join(ws + [w], '-') == Join(ws, '-') + "-" + w
  {
    assert (ws + [w])[1..] == ws[1..] + [w];
    if |ws| > 1 {
      JoinAppend(ws[1..], w);
      assert ws[0] + ['-'] + (Join(ws[1..], '-') + "-" + w) == (ws[0] + ['-'] + Join(ws[1..], '-')) + "-" + w;
    }
  }

  lemma {:induction false} JoinGrow(ws: seq<string>, c: char)
    requires ws != []
    ensures var n := |ws| - 1;
            Join(ws[..n] + [ws[n] + [c]], '-') == Join(ws, '-') + [c]
  {
    var n := |ws| - 1;
    if n > 0 {
      JoinAppend(ws[..n], ws[n]);
      JoinAppend(ws[..n], ws[n] + [c]);
      assert ws == ws[..n] + [ws[n]];
      var head := Join(ws[..n], '-') + "-";
      assert head + (ws[n] + [c]) == (head + ws[n]) + [c];
    }
  }

  /** The joined words, with a dash before them if the text started with a separator and one after
      them if it ended with one. */
  function Shown(dashed: bool, ws: Words): string {
    if ws.all == [] then "-"
    else (if dashed then "-" else "") + Join(ws.all, '-') + (if ws.open then "" else "-")
  }

  /** What the loop has built after reading `s`. */
  function Built(s: string): string {
    if s == "" then "" else Shown(!IsAsciiAlphanumeric(s[0]), WordsOf(s))
  }

  /** The loop body's effect on what it has built. */
  function Push(out: string, c: char): string {
    if IsAsciiAlphanumeric(c) then out + [ToLower(c)]
    else if out == "" || out[|out| - 1] != '-' then out + "-"
    else out
  }

  lemma ShownGrows(dashed: bool, ws: Words, c: char)
    requires ws.open && ws.all != [] && IsAsciiAlphanumeric(c)
    ensures Shown(dashed, Read(ws, c)) == Shown(dashed, ws) + [ToLower(c)]
  {
    JoinGrow(ws.all, ToLower(c));
    var lead := if dashed then "-" else "";
    assert lead + (Join(ws.all, '-') + [ToLower(c)]) == lead + Join(ws.all, '-') + [ToLower(c)];
  }

  lemma ShownStartsWord(dashed: bool, ws: Words, c: char)
    requires !ws.open && IsAsciiAlphanumeric(c) && (ws.all == [] ==> dashed)
    ensures Shown(dashed, Read(ws, c)) == Shown(dashed, ws) + [ToLower(c)]
  {
    var lead, w := if dashed then "-" else "", [ToLower(c)];
    if ws.all != [] {
      JoinAppend(ws.all, w);
      assert lead + (Join(ws.all, '-') + "-" + w) == lead + Join(ws.all, '-') + "-" + w;
    } else {
      assert ws.all + [w] == [w] && lead + w + "" == "-" + w;
    }
  }

  lemma ShownSeparates(dashed: bool, ws: Words, c: char)
    requires AreWords(ws.all) && (ws.open ==> ws.all != []) && !IsAsciiAlphanumeric(c)
    ensures Shown(dashed, Read(ws, c)) == Push(Shown(dashed, ws), c)
  {
    if ws.all != [] {
      LastOfJoin(ws.all);
    }
  }

  lemma BuiltStep(s: string, c: char)
    ensures Built(s + [c]) == Push(Built(s), c)
  {
    assert (s + [c])[..|s|] == s;
    WordsAreWords(s);
    var dashed, ws := s != "" && !IsAsciiAlphanumeric(s[0]), WordsOf(s);
    if s == "" {
      assert Shown(false, Words([[ToLower(c)]], true)) == [ToLower(c)];
    } else if !IsAsciiAlphanumeric(c) {
      ShownSeparates(dashed, ws, c);
    } else if ws.open {
      ShownGrows(dashed, ws, c);
    } else {
      assert s[0] in s;
      ShownStartsWord(dashed, ws, c);
    }
  }

  lemma {:induction false} LastOfJoin(ws: seq<string>)
    requires ws != [] && AreWords(ws)
    ensures var j := Join(ws, '-'); j != "" && IsWordChar(j[0]) && IsWordChar(j[|j| - 1])
  {
    assert ws[0] in ws && ws[0][0] in ws[0] && ws[0][|ws[0]| - 1] in ws[0];
    if |ws| > 1 {
      assert forall w | w in ws[1..] :: w in ws;
      LastOfJoin(ws[1..]);
    }
  }

  function TrimStart(s: string): string {
    if s != "" && s[0] == '-' then TrimStart(s[1..]) else s
  }

  function TrimEnd(s: string): string {
    if s != "" && s[|s| - 1] == '-' then TrimEnd(s[..|s| - 1]) else s
  }

  function TrimDashes(s: string): string {
    TrimEnd(TrimStart(s))
  }

  lemma TrimLead(lead: string, tail: string)
    requires (lead == "" || lead == "-") && tail != "" && tail[0] != '-'
    ensures TrimStart(lead + tail) == tail
  {
    assert TrimStart(tail) == tail;
    if lead == "-" {
      assert (lead + tail)[1..] == tail;
    } else {
      assert lead + tail == tail;
    }
  }

  lemma TrimTrail(middle: string, trail: string)
    requires (trail == "" || trail == "-") && middle != "" && middle[|middle| - 1] != '-'
    ensures TrimEnd(middle + trail) == middle
  {
    assert TrimEnd(middle) == middle;
    if trail == "-" {
      assert (middle + trail)[..|middle|] == middle;
    } else {
      assert middle + trail == middle;
    }
  }

  lemma TrimBothEnds(lead: string, middle: string, trail: string)
    requires lead == "" || lead == "-"
    requires trail == "" || trail == "-"
    requires middle != "" && middle[0] != '-' && middle[|middle| - 1] != '-'
    ensures TrimDashes(lead + middle + trail) == middle
  {
    assert lead + middle + trail == lead + (middle + trail);
    TrimLead(lead, middle + trail);
    TrimTrail(middle, trail);
  }

  lemma TrimShown(dashed: bool, ws: Words)
    requires AreWords(ws.all) && ws.all != []
    ensures TrimDashes(Shown(dashed, ws)) == Join(ws.all, '-')
  {
    LastOfJoin(ws.all);
    TrimBothEnds(if dashed then "-" else "", Join(ws.all, '-'), if ws.open then "" else "-");
  }

  lemma TrimBuilt(s: string)
    ensures TrimDashes(Built(s)) == if WordsOf(s).all == [] then "" else Join(WordsOf(s).all, '-')
  {
    WordsAreWords(s);
    if WordsOf(s).all != [] {
      TrimShown(!IsAsciiAlphanumeric(s[0]), WordsOf(s));
    } else {
      assert "-"[1..] == "" && TrimStart("-") == "";
    }
  }

  /** The source's loop: push, or push one dash, then trim. */
  method MakeSlug(name: string) returns (r: Option<string>)
    ensures r == Slug(name)
  {
    var out := "";
    for n := 0 to |name|
      invariant out == Built(name[..n])
    {
      BuiltStep(name[..n], name[n]);
      assert name[..n + 1] == name[..n] + [name[n]];
      if IsAsciiAlphanumeric(name[n]) {
        out := out + [ToLower(name[n])];
      } else if out == "" || out[|out| - 1] != '-' {
        out := out + "-";
      }
    }
    assert name[..|name|] == name;
    TrimBuilt(name);
    WordsAreWords(name);
    if WordsOf(name).all != [] {
      LastOfJoin(WordsOf(name).all);
    }
    var trimmed := TrimDashes(out);
    r := if trimmed != "" then Some(trimmed) else None;
  }

  // ---------------------------------------------------------------------
  // What a slug looks like
  // ---------------------------------------------------------------------

  /** Lower-case alphanumerics and single dashes between them. */
  predicate IsSlug(s: string) {
    && s != ""
    && (forall i | 0 <= i < |s| :: IsWordChar(s[i]) || s[i] == '-')
    && s[0] != '-' && s[|s| - 1] != '-'
    && (forall i | 0 < i < |s| :: !(s[i - 1] == '-' && s[i] == '-'))
  }

  lemma {:induction false} JoinedWordsAreSlug(ws: seq<string>)
    requires ws != [] && AreWords(ws)
    ensures IsSlug(Join(ws, '-'))
  {
    assert ws[0] in ws;
    forall i | 0 <= i < |ws[0]|
      ensures IsWordChar(ws[0][i])
    {
      assert ws[0][i] in ws[0];
    }
    if |ws| > 1 {
      assert forall w | w in ws[1..] :: w in ws;
      JoinedWordsAreSlug(ws[1..]);
      var j, rest := Join(ws, '-'), Join(ws[1..], '-');
      assert j == ws[0] + (['-'] + rest);
      forall i | 0 <= i < |j|
        ensures IsWordChar(j[i]) || j[i] == '-'
        ensures i > 0 ==> !(j[i - 1] == '-' && j[i] == '-')
      {
        if i > |ws[0]| {
          assert j[i] == rest[i - |ws[0]| - 1];
          assert i > |ws[0]| + 1 ==> j[i - 1] == rest[i - |ws[0]| - 2];
        }
      }
    }
  }

  /** Every slug is well formed, and only a name without alphanumerics has none. */
  lemma SlugShape(name: string)
    ensures Slug(name).Some? ==> IsSlug(Slug(name).value)
    ensures Slug(name).None? <==> forall c | c in name :: !IsAsciiAlphanumeric(c)
  {
    WordsAreWords(name);
    if Slug(name).Some? {
      JoinedWordsAreSlug(WordsOf(name).all);
    }
  }

  /** The alphanumerics of a text, in lower case. */
  function Letters(s: string): string {
    if s == "" then ""
    else
      var c := s[|s| - 1];
      Letters(s[..|s| - 1]) + (if IsAsciiAlphanumeric(c) then [ToLower(c)] else "")
  }

  function Flat(ws: seq<string>): string {
    if ws == [] then "" else Flat(ws[..|ws| - 1]) + ws[|ws| - 1]
  }

  /** A name's words hold exactly its alphanumerics, in order. */
  lemma {:induction false} WordsKeepLetters(s: string)
    ensures Flat(WordsOf(s).all) == Letters(s)
  {
    if s != "" {
      var front, c := s[..|s| - 1], s[|s| - 1];
      WordsKeepLetters(front);
      WordsAreWords(front);
      var before, after := WordsOf(front).all, WordsOf(s).all;
      if IsAsciiAlphanumeric(c) {
        if WordsOf(front).open {
          var n := |before| - 1;
          assert after[..n] == before[..n];
          assert Flat(before[..n]) + (before[n] + [ToLower(c)]) == (Flat(before[..n]) + before[n]) + [ToLower(c)];
        } else {
          assert after[..|before|] == before;
        }
      }
    }
  }

  /** Reading one more word after a separator adds that word. */
  lemma {:induction false} WordsAfterWord(s: string, w: string)
    requires IsWord(w) && !WordsOf(s).open
    ensures WordsOf(s + w) == Words(WordsOf(s).all + [w], true)
    decreases |w|
  {
    var front, c := w[..|w| - 1], w[|w| - 1];
    assert c in w && w == front + [c];
    assert s + w == (s + front) + [c];
    assert (s + w)[..|s + w| - 1] == s + front;
    assert ToLower(c) == c && IsAsciiAlphanumeric(c);
    if front == "" {
      assert s + front == s;
    } else {
      assert forall x | x in front :: x in w;
      WordsAfterWord(s, front);
    }
  }

  lemma WordsAfterDash(s: string)
    ensures WordsOf(s + "-") == Words(WordsOf(s).all, false)
  {
    assert (s + "-")[..|s|] == s;
  }

  lemma {:induction false} WordsOfJoined(ws: seq<string>)
    requires ws != [] && AreWords(ws)
    ensures WordsOf(Join(ws, '-')) == Words(ws, true)
  {
    var front, last := ws[..|ws| - 1], ws[|ws| - 1];
    assert last in ws && ws == front + [last];
    if front == [] {
      WordsAfterWord("", last);
      assert "" + last == last;
    } else {
      assert forall w | w in front :: w in ws;
      WordsOfJoined(front);
      WordsAfterDash(Join(front, '-'));
      WordsAfterWord(Join(front, '-') + "-", last);
      JoinAppend(front, last);
    }
  }

  /** Making a slug of a slug changes nothing, and making a slug keeps every letter and digit. */
  lemma SlugIsIdempotent(name: string)
    requires Slug(name).Some?
    ensures Slug(Slug(name).value) == Slug(name)
    ensures Letters(Slug(name).value) == Letters(name)
  {
    var ws := WordsOf(name).all;
    WordsAreWords(name);
    WordsOfJoined(ws);
    WordsKeepLetters(name);
    WordsKeepLetters(Join(ws, '-'));
  }
}
