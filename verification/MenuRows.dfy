/** The rows setup puts into the menu, and the two properties of them the edit relies on
    (crates/cli/src/setup/menu.rs). */
module MenuRows {
  import opened Prelude
  import opened Text
  import opened MenuEdit
  import opened MenuRoundTrip

  // The texts are written in parts: the parts, not their lengths, are what the proofs below look at.

  const STEM := "omarchy-presence-" + "unlock:menu:"
  const MARKERS := Markers("// " + (STEM + "start"), "// " + (STEM + "end"))

  const PROGRAM := ["omarchy", "presence", "unlock"]
  const ICON := "\U{f0990}"
  const LABEL := "Presence Unlock"

  /** Shell text whose slashes are the separators between the parts. */
  const INSTALLED := ["command -v " + Join(PROGRAM, '-') + " >", "dev", "null"]
  const APPLIED := ["grep -qsF '" + Join(PROGRAM, '-') + ":presence' \"$HOME", ".config", "omarchy", "plugins", "${USER}.lock", "Service.qml\""]

  const SETUP_TEXT := ["Set", "up", "unlocking", "with", "a", "trusted", "Bluetooth", "device"]
  const MANAGE_TEXT := ["Enroll", "a", "trusted", "device,", "manage", "presence", "unlock,", "and", "run", "diagnostics"]
  const REMOVE_TEXT := ["Remove", "presence", "unlock", "and", "restore", "Omarchy's", "own", "lock", "screen"]
  const LAUNCHER := ["omarchy", "launch", "floating", "terminal", "with", "presentation"]

  /** When a row is shown: the program is installed, and the lock is or is not. */
  function PresenceWhen(applied: bool): string {
    Join(INSTALLED, '/') + " && " + (if applied then "" else "! ") + Join(APPLIED, '/')
  }

  /** `replace('"', "\\\"")`. */
  function Escaped(s: string): string {
    if s == "" then "" else (if s[0] == '"' then "\\\"" else [s[0]]) + Escaped(s[1..])
  }

  function RowHead(id: string, description: string): string {
    "  \"" + id + "\": {\"icon\":\"" + ICON + "\",\"label\":\"" + LABEL + "\",\"description\":\"" + description + "\",\"when\":\""
  }

  function RowTail(arguments: string): string {
    "\",\"action\":\"" + Join(LAUNCHER, '-') + " " + Join(PROGRAM, '-') + arguments + "\"}"
  }

  function Row(id: string, description: seq<string>, applied: bool, arguments: string): string
    requires description != []
  {
    RowHead(id, Join(description, ' ')) + Escaped(PresenceWhen(applied)) + RowTail(arguments)
  }

  function SetupRow(): string {
    Row("setup.security.presence", SETUP_TEXT, false, " setup")
  }

  function ManageRow(): string {
    Row("setup.security." + "presence-manage", MANAGE_TEXT, true, "")
  }

  function RemoveRow(): string {
    Row("remove.security.presence", REMOVE_TEXT, true, " uninstall")
  }

  function Rows(): string {
    SetupRow() + (",\n" + (ManageRow() + (",\n" + RemoveRow())))
  }

  /** The two conditions differ in one exclamation mark. */
  lemma WhenText() returns (installed: string, applied: string)
    ensures PresenceWhen(true) == installed + " && " + applied
    ensures PresenceWhen(false) == installed + " && ! " + applied
  {
    installed, applied := Join(INSTALLED, '/'), Join(APPLIED, '/');
    TwoConditions(installed, applied);
  }

  lemma TwoConditions(installed: string, applied: string)
    ensures installed + " && " + "" + applied == installed + " && " + applied
    ensures installed + " && " + "! " + applied == installed + " && ! " + applied
  {
  }

  /** A row is shown under the condition it was given. */
  ghost predicate IsShownWhen(row: string, applied: bool) {
    exists head, tail :: row == head + Escaped(PresenceWhen(applied)) + tail
  }

  lemma RowIsShownWhen(id: string, description: seq<string>, applied: bool, arguments: string)
    requires description != []
    ensures IsShownWhen(Row(id, description, applied, arguments), applied)
  {
  }

  /** Setup is offered while the lock is not applied, managing and removing it while it is. */
  lemma OfferedWhen()
    ensures IsShownWhen(SetupRow(), false) && IsShownWhen(ManageRow(), true) && IsShownWhen(RemoveRow(), true)
  {
    RowIsShownWhen("setup.security.presence", SETUP_TEXT, false, " setup");
    RowIsShownWhen("setup.security." + "presence-manage", MANAGE_TEXT, true, "");
    RowIsShownWhen("remove.security.presence", REMOVE_TEXT, true, " uninstall");
  }

  /** The rows are three members separated by commas. */
  lemma RowsText()
    ensures Rows() == SetupRow() + ",\n" + ManageRow() + ",\n" + RemoveRow()
  {
    JoinedRows(SetupRow(), ManageRow(), RemoveRow());
  }

  lemma JoinedRows(a: string, b: string, c: string)
    ensures a + (",\n" + (b + (",\n" + c))) == a + ",\n" + b + ",\n" + c
  {
  }

  /** A row is a member named by its id. */
  lemma RowStarts(id: string, description: seq<string>, applied: bool, arguments: string)
    requires description != []
    ensures "  \"" + id + "\": {" <= Row(id, description, applied, arguments)
  {
    var head := "  \"" + id + "\": {";
    var rest := "\"icon\":\"" + ICON + "\",\"label\":\"" + LABEL + "\",\"description\":\"" + Join(description, ' ') + "\",\"when\":\"";
    assert RowHead(id, Join(description, ' ')) == head + rest;
  }

  /** What a JSON reader makes of escaped quotes. */
  function Unescaped(s: string): string {
    if |s| >= 2 && s[0] == '\\' && s[1] == '"' then "\"" + Unescaped(s[2..])
    else if s == "" then ""
    else [s[0]] + Unescaped(s[1..])
  }

  /** So the menu evaluates the condition that was meant: escaping its quotes loses nothing, a condition
      without backslashes being given. */
  lemma {:induction false} EscapeIsUndone(s: string)
    requires '\\' !in s
    ensures Unescaped(Escaped(s)) == s
  {
    if s != "" {
      EscapeIsUndone(s[1..]);
      var rest := Escaped(s[1..]);
      if s[0] == '"' {
        assert Escaped(s) == "\\\"" + rest && Escaped(s)[2..] == rest;
      } else {
        assert s[0] in s;
        assert Escaped(s) == [s[0]] + rest && Escaped(s)[1..] == rest;
      }
    }
  }

  // ---------------------------------------------------------------------
  // The markers
  // ---------------------------------------------------------------------

  /** Characters that neither end a line, nor separate entries or words, nor start a comment. */
  predicate IsPlain(s: string) {
    forall c | c in s :: c != '/' && c != '\n' && c != ',' && c != ' '
  }

  lemma MarkerOf(name: string)
    requires IsPlain(name) && name != ""
    ensures var p := "// " + name;
            && |p| == 3 + |name|
            && '\n' !in p && ',' !in p && p[0] == p[1] == '/'
            && (forall k | 2 <= k < |p| :: p[k] != '/')
            && IsSpaceSafe(p)
  {
    var p := "// " + name;
    forall k | 3 <= k < |p|
      ensures p[k] != '/' && p[k] != '\n' && p[k] != ',' && p[k] != ' '
    {
      assert p[k] == name[k - 3] && name[k - 3] in name;
    }
  }

  lemma StemIsPlain()
    ensures IsPlain(STEM) && |STEM| == 29
  {
    assert IsPlain("omarchy-presence-") && |"omarchy-presence-"| == 17;
    assert IsPlain("unlock:menu:") && |"unlock:menu:"| == 12;
  }

  /** The markers are what the edit needs them to be. */
  lemma TheMarkers()
    ensures AreMarkers(MARKERS)
  {
    StemIsPlain();
    var start, end := STEM + "start", STEM + "end";
    assert IsPlain("start") && IsPlain("end");
    MarkerOf(start);
    MarkerOf(end);
    assert ("// " + start)[32] == start[29] == 's' && ("// " + end)[32] == end[29] == 'e';
  }

  // ---------------------------------------------------------------------
  // No two slashes in a row
  // ---------------------------------------------------------------------

  predicate SlashFree(s: string) {
    '/' !in s
  }

  lemma NoPairIn(a: string, b: string)
    requires HasNoSlashPair(a) && HasNoSlashPair(b)
    requires a != "" && b != "" ==> a[|a| - 1] != '/' || b[0] != '/'
    ensures HasNoSlashPair(a + b)
  {
    var s := a + b;
    forall i | 0 <= i < |s| - 1
      ensures !(s[i] == '/' && s[i + 1] == '/')
    {
      if i + 1 < |a| {
        assert s[i] == a[i] && s[i + 1] == a[i + 1];
      } else if i >= |a| {
        assert s[i] == b[i - |a|] && s[i + 1] == b[i + 1 - |a|];
      }
    }
  }

  lemma SlashFreeHasNoPair(s: string)
    requires SlashFree(s)
    ensures HasNoSlashPair(s)
    ensures s != "" ==> s[0] != '/' && s[|s| - 1] != '/'
  {
  }

  /** Parts without slashes, none empty, joined by slashes. */
  lemma {:induction false} PartsHaveNoPair(parts: seq<string>)
    requires parts != [] && forall p | p in parts :: SlashFree(p) && p != ""
    ensures HasNoSlashPair(Join(parts, '/'))
    ensures var s := Join(parts, '/'); s != "" && s[0] != '/' && s[|s| - 1] != '/'
  {
    assert parts[0] in parts;
    SlashFreeHasNoPair(parts[0]);
    if |parts| > 1 {
      assert forall p | p in parts[1..] :: p in parts;
      PartsHaveNoPair(parts[1..]);
      var rest := Join(parts[1..], '/');
      NoPairIn("/", rest);
      NoPairIn(parts[0], "/" + rest);
      assert parts[0] + ['/'] + rest == parts[0] + ("/" + rest);
    }
  }

  /** Escaping quotes brings no slashes together. */
  lemma {:induction false} EscapedHasNoPair(s: string)
    requires HasNoSlashPair(s)
    ensures HasNoSlashPair(Escaped(s))
    ensures s != "" ==> Escaped(s) != "" && (Escaped(s)[0] == '/' <==> s[0] == '/')
  {
    if s != "" {
      EscapedHasNoPair(s[1..]);
      var piece := if s[0] == '"' then "\\\"" else [s[0]];
      NoPairIn(piece, Escaped(s[1..]));
    }
  }

  lemma {:induction false} JoinedIsSlashFree(parts: seq<string>, sep: char)
    requires parts != [] && sep != '/' && forall p | p in parts :: SlashFree(p)
    ensures SlashFree(Join(parts, sep))
  {
    assert parts[0] in parts;
    if |parts| > 1 {
      assert forall p | p in parts[1..] :: p in parts;
      JoinedIsSlashFree(parts[1..], sep);
    }
  }

  lemma HeadIsSlashFree(id: string, description: string)
    requires SlashFree(id) && SlashFree(description)
    ensures SlashFree(RowHead(id, description))
  {
  }

  lemma ProgramIsSlashFree()
    ensures SlashFree(Join(PROGRAM, '-'))
  {
    JoinedIsSlashFree(PROGRAM, '-');
  }

  lemma LauncherIsSlashFree()
    ensures SlashFree(Join(LAUNCHER, '-'))
  {
    JoinedIsSlashFree(LAUNCHER, '-');
  }

  lemma TailIsSlashFree(arguments: string)
    requires SlashFree(arguments)
    ensures SlashFree(RowTail(arguments))
  {
    ProgramIsSlashFree();
    LauncherIsSlashFree();
  }

  lemma SetupText()
    ensures forall p | p in SETUP_TEXT :: SlashFree(p)
  {
  }

  lemma Ids()
    ensures SlashFree("setup.security.presence") && SlashFree("remove.security.presence")
    ensures SlashFree("setup.security." + "presence-manage")
  {
  }

  lemma Arguments()
    ensures SlashFree(" setup") && SlashFree("") && SlashFree(" uninstall")
  {
  }

  lemma ManageText()
    ensures forall p | p in MANAGE_TEXT :: SlashFree(p)
  {
    assert MANAGE_TEXT == MANAGE_TEXT[..5] + MANAGE_TEXT[5..];
    assert forall p | p in MANAGE_TEXT[..5] :: SlashFree(p);
    assert forall p | p in MANAGE_TEXT[5..] :: SlashFree(p);
  }

  lemma RemoveText()
    ensures forall p | p in REMOVE_TEXT :: SlashFree(p)
  {
  }

  lemma RowHasNoPair(id: string, description: seq<string>, applied: bool, arguments: string)
    requires description != [] && forall p | p in description :: SlashFree(p)
    requires SlashFree(id) && SlashFree(arguments)
    ensures HasNoSlashPair(Row(id, description, applied, arguments))
    ensures Row(id, description, applied, arguments) != "" && Row(id, description, applied, arguments)[0] != '/'
  {
    var head, when, tail := RowHead(id, Join(description, ' ')), PresenceWhen(applied), RowTail(arguments);
    JoinedIsSlashFree(description, ' ');
    HeadIsSlashFree(id, Join(description, ' '));
    TailIsSlashFree(arguments);
    SlashFreeHasNoPair(head);
    SlashFreeHasNoPair(tail);
    WhenHasNoPair(applied);
    EscapedHasNoPair(when);
    NoPairIn(head, Escaped(when));
    NoPairIn(head + Escaped(when), tail);
  }

  lemma InstalledParts()
    ensures forall p | p in INSTALLED :: SlashFree(p) && p != ""
  {
    ProgramIsSlashFree();
  }

  lemma AppliedParts()
    ensures forall p | p in APPLIED :: SlashFree(p) && p != ""
  {
    ProgramIsSlashFree();
  }

  lemma PartsOfWhen()
    ensures HasNoSlashPair(Join(INSTALLED, '/')) && HasNoSlashPair(Join(APPLIED, '/'))
    ensures Join(APPLIED, '/') != "" && Join(APPLIED, '/')[0] != '/'
  {
    InstalledParts();
    PartsHaveNoPair(INSTALLED);
    AppliedParts();
    PartsHaveNoPair(APPLIED);
  }

  lemma WhenHasNoPair(applied: bool)
    ensures HasNoSlashPair(PresenceWhen(applied))
  {
    PartsOfWhen();
    var joint := " && " + (if applied then "" else "! ");
    JointIsSlashFree(applied);
    SlashFreeHasNoPair(joint);
    NoPairIn(Join(INSTALLED, '/'), joint);
    NoPairIn(Join(INSTALLED, '/') + joint, Join(APPLIED, '/'));
    assert Join(INSTALLED, '/') + joint == Join(INSTALLED, '/') + " && " + (if applied then "" else "! ");
  }

  lemma JointIsSlashFree(applied: bool)
    ensures SlashFree(" && " + (if applied then "" else "! "))
  {
  }

  lemma SetupRowHasNoPair()
    ensures HasNoSlashPair(SetupRow())
  {
    SetupText();
    Ids();
    Arguments();
    RowHasNoPair("setup.security.presence", SETUP_TEXT, false, " setup");
  }

  lemma ManageRowHasNoPair()
    ensures HasNoSlashPair(ManageRow())
  {
    ManageText();
    Ids();
    Arguments();
    RowHasNoPair("setup.security." + "presence-manage", MANAGE_TEXT, true, "");
  }

  lemma RemoveRowHasNoPair()
    ensures HasNoSlashPair(RemoveRow())
  {
    RemoveText();
    Ids();
    Arguments();
    RowHasNoPair("remove.security.presence", REMOVE_TEXT, true, " uninstall");
  }

  /** A comma between two texts keeps their slashes apart. */
  lemma NextRow(a: string, b: string)
    requires HasNoSlashPair(a) && HasNoSlashPair(b)
    ensures HasNoSlashPair(a + (",\n" + b))
  {
    SlashFreeHasNoPair(",\n");
    NoPairIn(",\n", b);
    NoPairIn(a, ",\n" + b);
  }

  /** The generated rows hold no two slashes in a row, so neither marker can occur in them. */
  lemma TheRows()
    ensures HasNoSlashPair(Rows())
  {
    SetupRowHasNoPair();
    ManageRowHasNoPair();
    RemoveRowHasNoPair();
    NextRow(ManageRow(), RemoveRow());
    NextRow(SetupRow(), ManageRow() + (",\n" + RemoveRow()));
  }

  // ---------------------------------------------------------------------
  // The edit, for these markers and rows
  // ---------------------------------------------------------------------

  /** Uninstalling gives an unmarked menu file back byte for byte exactly when its text is restorable. */
  lemma UninstallRestores(s: string, close: nat)
    requires IsUnmarked(MARKERS, s) && FindLast(s, '}') == Some(close)
    ensures Entry(MARKERS, s, Rows()).Ok? && Removal(MARKERS, Entry(MARKERS, s, Rows()).value).Ok?
    ensures Removal(MARKERS, Entry(MARKERS, s, Rows()).value) == Ok(s) <==> IsRestorable(s, close)
  {
    TheMarkers();
    TheRows();
    RemovalUndoesEntry(MARKERS, s, Rows(), close);
  }

  /** Installing again changes nothing exactly when the text is stable. */
  lemma ReinstallChangesNothing(s: string, close: nat)
    requires IsUnmarked(MARKERS, s) && FindLast(s, '}') == Some(close)
    ensures Entry(MARKERS, s, Rows()).Ok?
    ensures Entry(MARKERS, Entry(MARKERS, s, Rows()).value, Rows()) == Entry(MARKERS, s, Rows()) <==> IsStable(s, close)
  {
    TheMarkers();
    TheRows();
    EntryIsIdempotent(MARKERS, s, Rows(), close);
  }
}
