/**
 The locked read-render-compare-rename update of crates/cli/src/atomic.rs, as a system of writers that
 take one file-system step at a time in any order, with outsiders that edit the file without the lock.
 */
module AtomicUpdate {
  import opened Prelude

  type Writer = nat

  /** A file as a snapshot sees it. */
  datatype File = File(inode: nat, contents: string)

  /** What one writer was asked to do; a render may fail. */
  datatype Job = Job(missing: string, render: string -> Option<string>)

  datatype Outcome = Updated | Unchanged | TimedOut | RenderFailed | Conflict | IoFailed | SyncFailed

  datatype Pc =
    | Waiting
    | Locked
    | Snapped(before: Option<File>)
    | Rendered(before: Option<File>, output: string)
    | Staging(before: Option<File>, output: string)
    | Verified(before: Option<File>, output: string, edits: nat)
    | Renamed
    | Ending(outcome: Outcome)
    | Ended(outcome: Outcome)
    | Crashed(committed: bool)

  /** A rename that happened: what it replaced, and whether an outsider edited the file between the
      writer's comparison and its rename. */
  datatype Commit = Commit(writer: Writer, replaced: Option<string>, output: string, raced: bool)

  datatype State = State(
    target: Option<File>,
    lock: Option<Writer>,
    pcs: map<Writer, Pc>,
    temporaries: map<Writer, File>,
    nextInode: nat,
    edits: nat,
    log: seq<Commit>)

  datatype Action =
    | Acquire(w: Writer)
    | GiveUp(w: Writer)
    | TakeSnapshot(w: Writer)
    | Render(w: Writer)
    | CreateTemporary(w: Writer)
    | WriteSome(w: Writer, count: nat)
    | Compare(w: Writer)
    | Rename(w: Writer)
    | SyncDirectory(w: Writer, ok: bool)
    | FailIo(w: Writer)
    | Release(w: Writer)
    | Crash(w: Writer)
    | OutsideEdit(to: Option<File>)

  function Contents(f: Option<File>): Option<string> {
    if f.Some? then Some(f.value.contents) else None
  }

  /** The text a writer renders from: the file's, or its stand-in for a missing file. */
  function SourceOf(job: Job, contents: Option<string>): string {
    if contents.Some? then contents.value else job.missing
  }

  function Goto(s: State, w: Writer, pc: Pc): State {
    s.(pcs := s.pcs[w := pc])
  }

  /** One step, or None when the writer is not at that step. */
  function Step(jobs: Writer -> Job, s: State, a: Action): Option<State> {
    if a.OutsideEdit? then Some(s.(target := a.to, edits := s.edits + 1))
    else if a.w !in s.pcs then None
    else WriterStep(jobs, s, a, s.pcs[a.w])
  }

  function WriterStep(jobs: Writer -> Job, s: State, a: Action, pc: Pc): Option<State>
    requires !a.OutsideEdit? && a.w in s.pcs
  {
    var w := a.w;
    match a
    case Acquire(_) =>
      if pc.Waiting? && s.lock.None? then Some(Goto(s, w, Locked).(lock := Some(w))) else None
    case GiveUp(_) =>
      if pc.Waiting? && s.lock.Some? then Some(Goto(s, w, Ended(TimedOut))) else None
    case TakeSnapshot(_) =>
      if pc.Locked? then Some(Goto(s, w, Snapped(s.target))) else None
    case Render(_) =>
      if pc.Snapped? then Some(Goto(s, w, AfterRender(jobs(w), pc.before))) else None
    case CreateTemporary(_) =>
      if pc.Rendered? then
        Some(Goto(s, w, Staging(pc.before, pc.output)).(
             temporaries := s.temporaries[w := File(s.nextInode, "")], nextInode := s.nextInode + 1))
      else None
    case WriteSome(_, count) =>
      if pc.Staging? && w in s.temporaries && |s.temporaries[w].contents| + count <= |pc.output| then
        var f := s.temporaries[w];
        Some(s.(temporaries := s.temporaries[w := f.(contents := pc.output[..|f.contents| + count])]))
      else None
    case Compare(_) =>
      if pc.Staging? && w in s.temporaries && s.temporaries[w].contents == pc.output then
        if s.target == pc.before then Some(Goto(s, w, Verified(pc.before, pc.output, s.edits)))
        else Some(Goto(s, w, Ending(Conflict)).(temporaries := s.temporaries - {w}))
      else None
    case Rename(_) =>
      if pc.Verified? && w in s.temporaries then
        Some(Goto(s, w, Renamed).(
             target := Some(s.temporaries[w]),
             temporaries := s.temporaries - {w},
             log := s.log + [Commit(w, Contents(s.target), s.temporaries[w].contents, pc.edits != s.edits)]))
      else None
    case SyncDirectory(_, ok) =>
      if pc.Renamed? then Some(Goto(s, w, Ending(if ok then Updated else SyncFailed))) else None
    case FailIo(_) =>
      if pc.Locked? || pc.Rendered? || pc.Staging? || pc.Verified? then
        Some(Goto(s, w, Ending(IoFailed)).(temporaries := s.temporaries - {w}))
      else None
    case Release(_) =>
      if pc.Ending? then Some(Goto(s, w, Ended(pc.outcome)).(lock := None)) else None
    case Crash(_) =>
      if pc.Ended? || pc.Crashed? then None
      else Some(Goto(s, w, Crashed(HasCommitted(pc))).(lock := if pc.Waiting? then s.lock else None))
  }

  function AfterRender(job: Job, before: Option<File>): Pc {
    var source := SourceOf(job, Contents(before));
    var output := job.render(source);
    if output.None? then Ending(RenderFailed)
    else if output.value == source then Ending(Unchanged)
    else Rendered(before, output.value)
  }

  predicate HasCommitted(pc: Pc) {
    match pc
    case Renamed => true
    case Ending(o) => o == Updated || o == SyncFailed
    case Ended(o) => o == Updated || o == SyncFailed
    case Crashed(committed) => committed
    case _ => false
  }

  predicate HoldsLock(pc: Pc) {
    !pc.Waiting? && !pc.Ended? && !pc.Crashed?
  }

  ghost predicate IsStart(s: State) {
    && s.lock.None? && s.temporaries == map[] && s.log == [] && s.edits == 0
    && forall w | w in s.pcs :: s.pcs[w] == Waiting
  }

  /** The state after taking `actions` in order, or None when one of them could not be taken. */
  function Run(jobs: Writer -> Job, s: State, actions: seq<Action>): Option<State> {
    if actions == [] then Some(s)
    else
      var mid := Run(jobs, s, actions[..|actions| - 1]);
      if mid.None? then None else Step(jobs, mid.value, actions[|actions| - 1])
  }

  ghost predicate Cooperative(actions: seq<Action>) {
    forall a | a in actions :: !a.OutsideEdit?
  }

  // ---------------------------------------------------------------------
  // What every step keeps
  // ---------------------------------------------------------------------

  /** What a writer's position says about its own work. */
  ghost predicate WriterStands(jobs: Writer -> Job, s: State, w: Writer)
    requires w in s.pcs
  {
    match s.pcs[w]
    case Rendered(before, output) => IsRenderOf(jobs(w), Contents(before), output)
    case Staging(before, output) =>
      IsRenderOf(jobs(w), Contents(before), output) && w in s.temporaries && s.temporaries[w].contents <= output
    case Verified(before, output, edits) =>
      && IsRenderOf(jobs(w), Contents(before), output)
      && w in s.temporaries && s.temporaries[w].contents == output
      && edits <= s.edits && (edits == s.edits ==> s.target == before)
    case _ => true
  }

  ghost predicate IsRenderOf(job: Job, contents: Option<string>, output: string) {
    job.render(SourceOf(job, contents)) == Some(output)
  }

  ghost predicate OneHolder(s: State) {
    forall w | w in s.pcs :: HoldsLock(s.pcs[w]) <==> s.lock == Some(w)
  }

  ghost predicate CommitsAreRenders(jobs: Writer -> Job, s: State) {
    forall c | c in s.log :: c.raced || IsRenderOf(jobs(c.writer), c.replaced, c.output)
  }

  /** A writer has an entry in the log exactly when it got past its rename, and then just one. */
  ghost predicate LogMatchesWriters(s: State) {
    && (forall i, j | 0 <= i < j < |s.log| :: s.log[i].writer != s.log[j].writer)
    && (forall i | 0 <= i < |s.log| :: s.log[i].writer in s.pcs && HasCommitted(s.pcs[s.log[i].writer]))
    && (forall w | w in s.pcs && HasCommitted(s.pcs[w]) :: exists i :: 0 <= i < |s.log| && s.log[i].writer == w)
  }

  ghost predicate Inv(jobs: Writer -> Job, s: State) {
    && OneHolder(s)
    && (forall w | w in s.pcs :: WriterStands(jobs, s, w))
    && CommitsAreRenders(jobs, s)
    && LogMatchesWriters(s)
  }

  lemma StepKeepsOneHolder(jobs: Writer -> Job, s: State, a: Action, t: State)
    requires OneHolder(s) && Step(jobs, s, a) == Some(t)
    ensures OneHolder(t)
  {
  }

  /** A writer's own step leaves it standing where the step says. */
  lemma StepKeepsOwnStand(jobs: Writer -> Job, s: State, a: Action, t: State)
    requires !a.OutsideEdit? && a.w in s.pcs && WriterStands(jobs, s, a.w) && Step(jobs, s, a) == Some(t)
    ensures WriterStands(jobs, t, a.w)
  {
  }

  /** Somebody else's step does not move it, and can only invalidate its comparison by changing the file. */
  lemma StepKeepsOtherStand(jobs: Writer -> Job, s: State, a: Action, t: State, w: Writer)
    requires w in s.pcs && WriterStands(jobs, s, w) && OneHolder(s) && Step(jobs, s, a) == Some(t)
    requires a.OutsideEdit? || a.w != w
    ensures w in t.pcs && t.pcs[w] == s.pcs[w] && WriterStands(jobs, t, w)
  {
  }

  lemma StepKeepsCommitted(jobs: Writer -> Job, s: State, a: Action, t: State, w: Writer)
    requires Step(jobs, s, a) == Some(t) && !a.Rename?
    ensures w in t.pcs <==> w in s.pcs
    ensures w in s.pcs ==> HasCommitted(t.pcs[w]) == HasCommitted(s.pcs[w])
    ensures t.log == s.log
  {
  }

  lemma StepKeepsLog(jobs: Writer -> Job, s: State, a: Action, t: State)
    requires LogMatchesWriters(s) && Step(jobs, s, a) == Some(t) && !a.Rename?
    ensures LogMatchesWriters(t) && t.log == s.log
  {
    forall w: Writer
      ensures w in t.pcs <==> w in s.pcs
      ensures w in s.pcs ==> HasCommitted(t.pcs[w]) == HasCommitted(s.pcs[w])
      ensures t.log == s.log
    {
      StepKeepsCommitted(jobs, s, a, t, w);
    }
  }

  lemma StepKeepsInv(jobs: Writer -> Job, s: State, a: Action, t: State)
    requires Inv(jobs, s) && Step(jobs, s, a) == Some(t)
    ensures Inv(jobs, t)
  {
    StepKeepsOneHolder(jobs, s, a, t);
    forall w | w in t.pcs
      ensures WriterStands(jobs, t, w)
    {
      if a.OutsideEdit? || a.w != w {
        StepKeepsOtherStand(jobs, s, a, t, w);
      } else {
        StepKeepsOwnStand(jobs, s, a, t);
      }
    }
    if a.Rename? {
      RenameKeepsLog(jobs, s, a.w, t);
    } else {
      StepKeepsLog(jobs, s, a, t);
    }
  }

  /** A rename appends one commit, by a writer with none before, of what it was to write. */
  lemma RenameCommits(jobs: Writer -> Job, s: State, w: Writer, t: State)
    requires Inv(jobs, s) && Step(jobs, s, Rename(w)) == Some(t)
    ensures |t.log| == |s.log| + 1 && t.log[..|s.log|] == s.log && t.log[|s.log|].writer == w
    ensures t.log[|s.log|].raced || IsRenderOf(jobs(w), t.log[|s.log|].replaced, t.log[|s.log|].output)
    ensures forall i | 0 <= i < |s.log| :: s.log[i].writer != w
    ensures t.pcs == s.pcs[w := Renamed]
  {
    assert WriterStands(jobs, s, w);
  }

  /** The log goes on matching the writers when one with no entry commits and gets one. */
  lemma LogGrows(s: State, w: Writer, t: State, c: Commit)
    requires LogMatchesWriters(s) && w in s.pcs && c.writer == w
    requires t.log == s.log + [c] && t.pcs == s.pcs[w := Renamed]
    requires forall i | 0 <= i < |s.log| :: s.log[i].writer != w
    ensures LogMatchesWriters(t)
  {
    forall v | v in t.pcs && HasCommitted(t.pcs[v])
      ensures exists i :: 0 <= i < |t.log| && t.log[i].writer == v
    {
      if v == w {
        assert t.log[|s.log|].writer == w;
      } else {
        var i :| 0 <= i < |s.log| && s.log[i].writer == v;
        assert t.log[i].writer == v;
      }
    }
  }

  lemma RenameKeepsLog(jobs: Writer -> Job, s: State, w: Writer, t: State)
    requires Inv(jobs, s) && Step(jobs, s, Rename(w)) == Some(t)
    ensures CommitsAreRenders(jobs, t) && LogMatchesWriters(t)
  {
    RenameCommits(jobs, s, w, t);
    var c := t.log[|s.log|];
    assert t.log == s.log + [c];
    LogGrows(s, w, t, c);
  }

  lemma {:induction false} RunKeepsInv(jobs: Writer -> Job, s: State, actions: seq<Action>, t: State)
    requires IsStart(s) && Run(jobs, s, actions) == Some(t)
    ensures Inv(jobs, t)
    decreases |actions|
  {
    if actions != [] {
      var before := actions[..|actions| - 1];
      var mid := Run(jobs, s, before).value;
      RunKeepsInv(jobs, s, before, mid);
      StepKeepsInv(jobs, mid, actions[|actions| - 1], t);
    }
  }

  /** Main result, with outsiders: in every run each commit is the render of the very content it
      replaced, unless an outsider edited the file between that writer's comparison and its rename. */
  lemma CommitsReplaceWhatTheyRendered(jobs: Writer -> Job, s: State, actions: seq<Action>, t: State, c: Commit)
    requires IsStart(s) && Run(jobs, s, actions) == Some(t) && c in t.log && !c.raced
    ensures jobs(c.writer).render(SourceOf(jobs(c.writer), c.replaced)) == Some(c.output)
  {
    RunKeepsInv(jobs, s, actions, t);
  }

  /** An update that reports success changed the file once or had nothing to change; one that reports a
      time-out, a render failure, a conflict or an I/O failure changed nothing; a failed directory
      sync comes after the change. */
  lemma OutcomesAreHonest(jobs: Writer -> Job, s: State, actions: seq<Action>, t: State, w: Writer)
    requires IsStart(s) && Run(jobs, s, actions) == Some(t)
    requires w in t.pcs && t.pcs[w].Ended?
    ensures var outcome := t.pcs[w].outcome;
            (exists c :: c in t.log && c.writer == w) <==> outcome == Updated || outcome == SyncFailed
    ensures forall i, j | 0 <= i < j < |t.log| :: !(t.log[i].writer == w && t.log[j].writer == w)
  {
    RunKeepsInv(jobs, s, actions, t);
    if HasCommitted(t.pcs[w]) {
      var i :| 0 <= i < |t.log| && t.log[i].writer == w;
      assert t.log[i] in t.log;
    }
  }

  // ---------------------------------------------------------------------
  // What each outcome says about the snapshot
  // ---------------------------------------------------------------------

  /** What a writer's position says, once it has found `before` in its snapshot. */
  ghost predicate FollowsSnapshot(job: Job, before: Option<File>, pc: Pc) {
    var source := SourceOf(job, Contents(before));
    match pc
    case Waiting | Locked => false
    case Snapped(b) => b == before
    case Rendered(b, output) => b == before && Some(output) == job.render(source) && output != source
    case Staging(b, output) => b == before && Some(output) == job.render(source) && output != source
    case Verified(b, output, _) => b == before && Some(output) == job.render(source) && output != source
    case Renamed => job.render(source).Some? && job.render(source) != Some(source)
    case Ending(outcome) => OutcomeFollows(job, source, outcome)
    case Ended(outcome) => OutcomeFollows(job, source, outcome)
    case Crashed(_) => true
  }

  /** Nothing to change, a failed render, and everything else, told apart by what rendering gave. */
  ghost predicate OutcomeFollows(job: Job, source: string, outcome: Outcome) {
    && outcome != TimedOut
    && (outcome == Unchanged <==> job.render(source) == Some(source))
    && (outcome == RenderFailed <==> job.render(source) == None)
  }

  lemma StepFollowsSnapshot(jobs: Writer -> Job, s: State, a: Action, t: State, w: Writer, before: Option<File>)
    requires Step(jobs, s, a) == Some(t) && w in s.pcs && FollowsSnapshot(jobs(w), before, s.pcs[w])
    ensures w in t.pcs && FollowsSnapshot(jobs(w), before, t.pcs[w])
  {
  }

  ghost predicate SnapshotAt(jobs: Writer -> Job, s: State, actions: seq<Action>, k: nat, w: Writer, found: Option<File>) {
    && k < |actions| && actions[k] == TakeSnapshot(w)
    && Run(jobs, s, actions[..k]).Some? && Run(jobs, s, actions[..k]).value.target == found
  }

  lemma {:induction false} SnapshotIsKept(jobs: Writer -> Job, s: State, actions: seq<Action>, t: State, k: nat, w: Writer, found: Option<File>)
    requires Run(jobs, s, actions) == Some(t) && SnapshotAt(jobs, s, actions, k, w, found)
    ensures w in t.pcs && FollowsSnapshot(jobs(w), found, t.pcs[w])
    decreases |actions|
  {
    var n := |actions| - 1;
    var mid := Run(jobs, s, actions[..n]).value;
    if k < n {
      assert actions[..n][..k] == actions[..k];
      SnapshotIsKept(jobs, s, actions[..n], mid, k, w, found);
      StepFollowsSnapshot(jobs, mid, actions[n], t, w, found);
    }
  }

  ghost predicate HasSnapshot(pc: Pc) {
    !pc.Waiting? && !pc.Locked? && !pc.Crashed? && pc != Ending(IoFailed) && pc != Ended(IoFailed) && pc != Ended(TimedOut)
  }

  lemma SnapshotStep(jobs: Writer -> Job, s: State, a: Action, t: State, w: Writer)
    requires Step(jobs, s, a) == Some(t) && w in t.pcs && HasSnapshot(t.pcs[w])
    requires w in s.pcs ==> s.pcs[w] != Ending(TimedOut)
    ensures w in s.pcs && (HasSnapshot(s.pcs[w]) || a == TakeSnapshot(w)) && t.pcs[w] != Ending(TimedOut)
  {
  }

  /** A writer past its snapshot took one. */
  lemma {:induction false} SnapshotWasTaken(jobs: Writer -> Job, s: State, actions: seq<Action>, t: State, w: Writer)
    returns (k: nat, found: Option<File>)
    requires IsStart(s) && Run(jobs, s, actions) == Some(t) && w in t.pcs && HasSnapshot(t.pcs[w])
    ensures SnapshotAt(jobs, s, actions, k, w, found)
    decreases |actions|
  {
    var n := |actions| - 1;
    var mid := Run(jobs, s, actions[..n]).value;
    NeverEndingInTimeOut(jobs, s, actions[..n], mid, w);
    SnapshotStep(jobs, mid, actions[n], t, w);
    if HasSnapshot(mid.pcs[w]) {
      k, found := SnapshotWasTaken(jobs, s, actions[..n], mid, w);
      assert actions[..n][..k] == actions[..k];
    } else {
      k, found := n, mid.target;
    }
  }

  lemma {:induction false} NeverEndingInTimeOut(jobs: Writer -> Job, s: State, actions: seq<Action>, t: State, w: Writer)
    requires IsStart(s) && Run(jobs, s, actions) == Some(t)
    ensures w in t.pcs ==> t.pcs[w] != Ending(TimedOut)
    decreases |actions|
  {
    if actions != [] {
      NeverEndingInTimeOut(jobs, s, actions[..|actions| - 1], Run(jobs, s, actions[..|actions| - 1]).value, w);
    }
  }

  /** Outcomes are about the file as it was: a writer that took its snapshot reports that there was nothing
      to change exactly when rendering what the file then held, or its stand-in, gave that very text, and a
      failed render exactly when rendering it failed. */
  lemma OutcomeIsAboutTheSnapshot(jobs: Writer -> Job, s: State, actions: seq<Action>, t: State, k: nat, w: Writer, found: Option<File>)
    requires Run(jobs, s, actions) == Some(t) && SnapshotAt(jobs, s, actions, k, w, found)
    requires w in t.pcs && t.pcs[w].Ended?
    ensures var source := if found.Some? then found.value.contents else jobs(w).missing;
            && (t.pcs[w].outcome == Unchanged <==> jobs(w).render(source) == Some(source))
            && (t.pcs[w].outcome == RenderFailed <==> jobs(w).render(source) == None)
  {
    SnapshotIsKept(jobs, s, actions, t, k, w, found);
  }

  /** And it took one, unless it gave up waiting or failed on I/O. */
  lemma OutcomeHasASnapshot(jobs: Writer -> Job, s: State, actions: seq<Action>, t: State, w: Writer)
    returns (k: nat, found: Option<File>)
    requires IsStart(s) && Run(jobs, s, actions) == Some(t)
    requires w in t.pcs && t.pcs[w].Ended? && t.pcs[w].outcome != TimedOut && t.pcs[w].outcome != IoFailed
    ensures SnapshotAt(jobs, s, actions, k, w, found)
  {
    k, found := SnapshotWasTaken(jobs, s, actions, t, w);
  }

  /** A conflict is reported only when the comparison found another file or other contents than the snapshot
      had. */
  lemma {:induction false} ConflictIsAChange(jobs: Writer -> Job, s: State, actions: seq<Action>, t: State, w: Writer)
    returns (k: nat, found: Option<File>, n: nat)
    requires IsStart(s) && Run(jobs, s, actions) == Some(t)
    requires w in t.pcs && (t.pcs[w] == Ending(Conflict) || t.pcs[w] == Ended(Conflict))
    ensures SnapshotAt(jobs, s, actions, k, w, found) && k < n < |actions| && actions[n] == Compare(w)
    ensures Run(jobs, s, actions[..n]).Some? && Run(jobs, s, actions[..n]).value.target != found
    decreases |actions|
  {
    var last := |actions| - 1;
    var mid := Run(jobs, s, actions[..last]).value;
    ConflictStep(jobs, mid, actions[last], t, w);
    if mid.pcs[w] == Ending(Conflict) || mid.pcs[w] == Ended(Conflict) {
      k, found, n := ConflictIsAChange(jobs, s, actions[..last], mid, w);
      assert actions[..last][..k] == actions[..k] && actions[..last][..n] == actions[..n];
    } else {
      k, found := SnapshotWasTaken(jobs, s, actions[..last], mid, w);
      SnapshotIsKept(jobs, s, actions[..last], mid, k, w, found);
      assert actions[..last][..k] == actions[..k];
      n := last;
    }
  }

  lemma ConflictStep(jobs: Writer -> Job, s: State, a: Action, t: State, w: Writer)
    requires Step(jobs, s, a) == Some(t) && w in t.pcs && (t.pcs[w] == Ending(Conflict) || t.pcs[w] == Ended(Conflict))
    ensures w in s.pcs
    ensures s.pcs[w] == Ending(Conflict) || s.pcs[w] == Ended(Conflict) ||
            (a == Compare(w) && s.pcs[w].Staging? && s.target != s.pcs[w].before)
  {
  }

  // ---------------------------------------------------------------------
  // Steps
  // ---------------------------------------------------------------------

  /** When each step can be taken: by a writer at that point, the lock being free or taken as it needs; a
      failure at any point that does I/O, and death at any point before the end. */
  lemma WhatWritersCanDo(jobs: Writer -> Job, s: State, w: Writer, count: nat, ok: bool)
    requires w in s.pcs
    ensures var pc := s.pcs[w];
            && (Step(jobs, s, Acquire(w)).Some? <==> pc == Waiting && s.lock == None)
            && (Step(jobs, s, GiveUp(w)).Some? <==> pc == Waiting && s.lock != None)
            && (Step(jobs, s, TakeSnapshot(w)).Some? <==> pc == Locked)
            && (Step(jobs, s, Render(w)).Some? <==> pc.Snapped?)
            && (Step(jobs, s, CreateTemporary(w)).Some? <==> pc.Rendered?)
            && (Step(jobs, s, SyncDirectory(w, ok)).Some? <==> pc == Renamed)
            && (Step(jobs, s, FailIo(w)).Some? <==> pc == Locked || pc.Rendered? || pc.Staging? || pc.Verified?)
            && (Step(jobs, s, Release(w)).Some? <==> pc.Ending?)
            && (Step(jobs, s, Crash(w)).Some? <==> !pc.Ended? && !pc.Crashed?)
  {
  }

  /** What each step that ends an update reports. */
  lemma WhatIsReported(jobs: Writer -> Job, s: State, a: Action, t: State)
    requires !a.OutsideEdit? && Step(jobs, s, a) == Some(t)
    ensures a.GiveUp? ==> t.pcs[a.w] == Ended(TimedOut)
    ensures a.SyncDirectory? ==> t.pcs[a.w] == Ending(if a.ok then Updated else SyncFailed)
    ensures a.FailIo? ==> t.pcs[a.w] == Ending(IoFailed)
    ensures a.Release? ==> s.pcs[a.w].Ending? && t.pcs[a.w] == Ended(s.pcs[a.w].outcome) && t.lock == None
  {
  }

  /** Only writers at work on one, or that died at it, have a temporary file. */
  ghost predicate NoStrayTemporaries(s: State) {
    forall w | w in s.temporaries :: w in s.pcs && (s.pcs[w].Staging? || s.pcs[w].Verified? || s.pcs[w].Crashed?)
  }

  /** Whatever an update reports, it leaves no temporary file behind. */
  lemma {:induction false} TemporariesAreRemoved(jobs: Writer -> Job, s: State, actions: seq<Action>, t: State)
    requires IsStart(s) && Run(jobs, s, actions) == Some(t)
    ensures NoStrayTemporaries(t)
    decreases |actions|
  {
    if actions != [] {
      var mid := Run(jobs, s, actions[..|actions| - 1]).value;
      TemporariesAreRemoved(jobs, s, actions[..|actions| - 1], mid);
      TemporariesStep(jobs, mid, actions[|actions| - 1], t);
    }
  }

  lemma TemporariesStep(jobs: Writer -> Job, s: State, a: Action, t: State)
    requires NoStrayTemporaries(s) && Step(jobs, s, a) == Some(t)
    ensures NoStrayTemporaries(t)
  {
  }

  // ---------------------------------------------------------------------
  // An update left alone
  // ---------------------------------------------------------------------

  /** The state after writer `w` alone has brought its job from start to finish in `s`. */
  function Finished(job: Job, s: State, w: Writer): State {
    var source := SourceOf(job, Contents(s.target));
    var output := job.render(source);
    if output.None? then Goto(s, w, Ended(RenderFailed))
    else if output.value == source then Goto(s, w, Ended(Unchanged))
    else
      Goto(s, w, Ended(Updated)).(
        target := Some(File(s.nextInode, output.value)),
        temporaries := s.temporaries - {w},
        nextInode := s.nextInode + 1,
        log := s.log + [Commit(w, Contents(s.target), output.value, false)])
  }

  /** From any moment at which the lock is free, a waiting writer can finish: with the file holding the
      render of what it held, or of its stand-in when it is missing; or with nothing changed when there
      is nothing to change or the render fails. */
  lemma UpdateCompletes(jobs: Writer -> Job, s: State, w: Writer) returns (actions: seq<Action>)
    requires s.lock.None? && w in s.pcs && s.pcs[w] == Waiting
    ensures Run(jobs, s, actions) == Some(Finished(jobs(w), s, w))
  {
    var t;
    var before := s.target;
    var source := SourceOf(jobs(w), Contents(before));
    var output := jobs(w).render(source);
    actions, t := RenderCompletes(jobs, s, w);
    if output.Some? && output.value != source {
      actions, t := StageCompletes(jobs, s, actions, t, w, before, output.value);
      actions, t := CommitCompletes(jobs, s, actions, t, w, before, output.value);
      assert t.pcs == s.pcs[w := Ended(Updated)] && t.temporaries == s.temporaries - {w};
    } else {
      actions, t := Extend(jobs, s, actions, t, Release(w));
      assert t.pcs == Finished(jobs(w), s, w).pcs;
    }
    assert t == Finished(jobs(w), s, w);
  }

  /** Taking the lock, the snapshot, and rendering it. */
  lemma RenderCompletes(jobs: Writer -> Job, s: State, w: Writer) returns (actions: seq<Action>, t: State)
    requires s.lock.None? && w in s.pcs && s.pcs[w] == Waiting
    ensures Run(jobs, s, actions) == Some(t)
    ensures t == s.(lock := Some(w), pcs := s.pcs[w := AfterRender(jobs(w), s.target)])
  {
    actions, t := Extend(jobs, s, [], s, Acquire(w));
    actions, t := Extend(jobs, s, actions, t, TakeSnapshot(w));
    actions, t := Extend(jobs, s, actions, t, Render(w));
    assert t.pcs == s.pcs[w := AfterRender(jobs(w), s.target)];
  }

  /** Writing the whole output to a temporary file. */
  lemma StageCompletes(jobs: Writer -> Job, s: State, done: seq<Action>, mid: State, w: Writer, before: Option<File>, output: string)
    returns (actions: seq<Action>, t: State)
    requires Run(jobs, s, done) == Some(mid) && w in mid.pcs && mid.pcs[w] == Rendered(before, output)
    ensures Run(jobs, s, actions) == Some(t)
    ensures t == mid.(pcs := mid.pcs[w := Staging(before, output)],
                      temporaries := mid.temporaries[w := File(mid.nextInode, output)], nextInode := mid.nextInode + 1)
  {
    actions, t := Extend(jobs, s, done, mid, CreateTemporary(w));
    assert output[..0 + |output|] == output;
    actions, t := Extend(jobs, s, actions, t, WriteSome(w, |output|));
    assert t.temporaries == mid.temporaries[w := File(mid.nextInode, output)];
  }

  /** Comparing, renaming, and letting go. */
  lemma CommitCompletes(jobs: Writer -> Job, s: State, done: seq<Action>, mid: State, w: Writer, before: Option<File>, output: string)
    returns (actions: seq<Action>, t: State)
    requires Run(jobs, s, done) == Some(mid) && mid.target == before
    requires w in mid.pcs && mid.pcs[w] == Staging(before, output)
    requires w in mid.temporaries && mid.temporaries[w].contents == output
    ensures Run(jobs, s, actions) == Some(t)
    ensures t == mid.(lock := None, pcs := mid.pcs[w := Ended(Updated)],
                      target := Some(mid.temporaries[w]), temporaries := mid.temporaries - {w},
                      log := mid.log + [Commit(w, Contents(before), output, false)])
  {
    actions, t := RenameCompletes(jobs, s, done, mid, w, before, output);
    actions, t := Extend(jobs, s, actions, t, SyncDirectory(w, true));
    actions, t := Extend(jobs, s, actions, t, Release(w));
    assert t.pcs == mid.pcs[w := Ended(Updated)];
  }

  lemma RenameCompletes(jobs: Writer -> Job, s: State, done: seq<Action>, mid: State, w: Writer, before: Option<File>, output: string)
    returns (actions: seq<Action>, t: State)
    requires Run(jobs, s, done) == Some(mid) && mid.target == before
    requires w in mid.pcs && mid.pcs[w] == Staging(before, output)
    requires w in mid.temporaries && mid.temporaries[w].contents == output
    ensures Run(jobs, s, actions) == Some(t)
    ensures t == mid.(pcs := mid.pcs[w := Renamed],
                      target := Some(mid.temporaries[w]), temporaries := mid.temporaries - {w},
                      log := mid.log + [Commit(w, Contents(before), output, false)])
  {
    actions, t := Extend(jobs, s, done, mid, Compare(w));
    assert t == Goto(mid, w, Verified(before, output, mid.edits));
    actions, t := Extend(jobs, s, actions, t, Rename(w));
    assert t.pcs == mid.pcs[w := Renamed];
  }

  /** In particular a file that does not exist yet is created, unless its stand-in needs no change. */
  lemma MissingFileIsCreated(job: Job, output: string) returns (actions: seq<Action>, t: State)
    requires job.render(job.missing) == Some(output) && output != job.missing
    ensures Run((w: Writer) => job, State(None, None, map[0 := Waiting], map[], 1, 0, []), actions) == Some(t)
    ensures t.pcs == map[0 := Ended(Updated)] && t.target == Some(File(1, output))
  {
    var s := State(None, None, map[0 := Waiting], map[], 1, 0, []);
    actions := UpdateCompletes((w: Writer) => job, s, 0);
    t := Finished(job, s, 0);
  }

  /** At most one writer is between taking the lock and letting it go. */
  lemma WritersExclude(jobs: Writer -> Job, s: State, actions: seq<Action>, t: State, v: Writer, w: Writer)
    requires IsStart(s) && Run(jobs, s, actions) == Some(t)
    requires v in t.pcs && w in t.pcs && HoldsLock(t.pcs[v]) && HoldsLock(t.pcs[w])
    ensures v == w
  {
    RunKeepsInv(jobs, s, actions, t);
  }

  // ---------------------------------------------------------------------
  // Writers alone: linearizability
  // ---------------------------------------------------------------------

  /** The renders of `ws`, applied in order, take `from` to `to`. */
  ghost predicate FoldsTo(jobs: Writer -> Job, from: Option<string>, log: seq<Commit>, to: Option<string>) {
    if log == [] then from == to
    else
      var last := log[|log| - 1];
      && FoldsTo(jobs, from, log[..|log| - 1], last.replaced)
      && jobs(last.writer).render(SourceOf(jobs(last.writer), last.replaced)) == Some(last.output)
      && to == Some(last.output)
  }

  /** While a writer holds the lock the file is still what it read. */
  ghost predicate Undisturbed(s: State, w: Writer)
    requires w in s.pcs
  {
    match s.pcs[w]
    case Snapped(before) => s.target == before
    case Rendered(before, _) => s.target == before
    case Staging(before, _) => s.target == before
    case Verified(before, _, _) => s.target == before
    case _ => true
  }

  ghost predicate NobodyDisturbed(s: State) {
    forall w | w in s.pcs :: Undisturbed(s, w)
  }

  lemma CooperativeStepUndisturbed(jobs: Writer -> Job, s: State, a: Action, t: State, w: Writer)
    requires OneHolder(s) && !a.OutsideEdit? && Step(jobs, s, a) == Some(t)
    requires w in s.pcs && Undisturbed(s, w)
    ensures w in t.pcs && Undisturbed(t, w)
    ensures t.pcs[w] == Ending(Conflict) ==> s.pcs[w] == Ending(Conflict)
    ensures t.pcs[w] == Ended(Conflict) ==> s.pcs[w] == Ending(Conflict) || s.pcs[w] == Ended(Conflict)
  {
  }

  lemma CooperativeStepFolds(jobs: Writer -> Job, s: State, a: Action, t: State, initial: Option<string>)
    requires !a.OutsideEdit? && Step(jobs, s, a) == Some(t)
    requires a.w in s.pcs && Undisturbed(s, a.w) && WriterStands(jobs, s, a.w)
    requires FoldsTo(jobs, initial, s.log, Contents(s.target))
    ensures FoldsTo(jobs, initial, t.log, Contents(t.target))
  {
    if a.Rename? {
      assert t.log[..|t.log| - 1] == s.log;
    }
  }

  lemma {:induction false} CooperativeRun(jobs: Writer -> Job, s: State, actions: seq<Action>, t: State)
    requires IsStart(s) && Run(jobs, s, actions) == Some(t) && Cooperative(actions)
    ensures NobodyDisturbed(t) && FoldsTo(jobs, Contents(s.target), t.log, Contents(t.target))
    ensures forall w | w in t.pcs :: t.pcs[w] != Ending(Conflict) && t.pcs[w] != Ended(Conflict)
    decreases |actions|
  {
    if actions != [] {
      var before, last := actions[..|actions| - 1], actions[|actions| - 1];
      assert last in actions && forall a | a in before :: a in actions;
      var mid := Run(jobs, s, before).value;
      RunKeepsInv(jobs, s, before, mid);
      CooperativeRun(jobs, s, before, mid);
      CooperativeStepFolds(jobs, mid, last, t, Contents(s.target));
      forall w | w in t.pcs
        ensures Undisturbed(t, w) && t.pcs[w] != Ending(Conflict) && t.pcs[w] != Ended(Conflict)
      {
        SameWriters(jobs, mid, last, t);
        CooperativeStepUndisturbed(jobs, mid, last, t, w);
      }
    }
  }

  lemma SameWriters(jobs: Writer -> Job, s: State, a: Action, t: State)
    requires Step(jobs, s, a) == Some(t)
    ensures t.pcs.Keys == s.pcs.Keys
  {
  }

  /** Main result, without outsiders: at every moment of every interleaving, crashes included, the file
      holds exactly the committed renders applied one after another to what it held at the start. It is
      never a partial write, and no update fails with a conflict. */
  lemma UpdatesAreLinearizable(jobs: Writer -> Job, s: State, actions: seq<Action>, t: State)
    requires IsStart(s) && Run(jobs, s, actions) == Some(t) && Cooperative(actions)
    ensures FoldsTo(jobs, Contents(s.target), t.log, Contents(t.target))
    ensures forall w | w in t.pcs :: t.pcs[w] != Ending(Conflict) && t.pcs[w] != Ended(Conflict)
  {
    CooperativeRun(jobs, s, actions, t);
  }

  // ---------------------------------------------------------------------
  // The gap
  // ---------------------------------------------------------------------

  function OneWriter(job: Job): Writer -> Job {
    (w: Writer) => job
  }

  function StartWith(contents: string): State {
    State(Some(File(0, contents)), None, map[0 := Waiting], map[], 1, 0, [])
  }

  /** The writer has compared and is about to rename. */
  function AboutToRename(original: string, output: string): State {
    var before := Some(File(0, original));
    State(before, Some(0), map[0 := Verified(before, output, 0)], map[0 := File(1, output)], 2, 0, [])
  }

  lemma ReachesTheGap(job: Job, original: string, output: string) returns (actions: seq<Action>)
    requires job.render(original) == Some(output) && output != original
    ensures Run(OneWriter(job), StartWith(original), actions) == Some(AboutToRename(original, output))
  {
    var jobs, s, before := OneWriter(job), StartWith(original), Some(File(0, original));
    var t := s;
    actions := [];
    actions, t := Extend(jobs, s, actions, t, Acquire(0));
    actions, t := Extend(jobs, s, actions, t, TakeSnapshot(0));
    assert t == State(before, Some(0), map[0 := Snapped(before)], map[], 1, 0, []);
    actions, t := Extend(jobs, s, actions, t, Render(0));
    actions, t := Extend(jobs, s, actions, t, CreateTemporary(0));
    assert t == State(before, Some(0), map[0 := Staging(before, output)], map[0 := File(1, "")], 2, 0, []);
    assert output[..0 + |output|] == output;
    actions, t := Extend(jobs, s, actions, t, WriteSome(0, |output|));
    assert t == State(before, Some(0), map[0 := Staging(before, output)], map[0 := File(1, output)], 2, 0, []);
    actions, t := Extend(jobs, s, actions, t, Compare(0));
    assert t == AboutToRename(original, output);
  }

  /** The documented limit: an outsider's edit between the comparison and the rename is overwritten, and
      the update still reports success. */
  lemma AnEditInTheGapIsLost(job: Job, original: string, edited: string, output: string) returns (actions: seq<Action>, t: State)
    requires job.render(original) == Some(output) && output != original && edited != original
    ensures Run(OneWriter(job), StartWith(original), actions) == Some(t)
    ensures OutsideEdit(Some(File(0, edited))) in actions
    ensures 0 in t.pcs && t.pcs[0] == Ended(Updated) && Contents(t.target) == Some(output)
    ensures t.log == [Commit(0, Some(edited), output, true)]
  {
    var jobs, s := OneWriter(job), StartWith(original);
    var compared := ReachesTheGap(job, original, output);
    var edit := OutsideEdit(Some(File(0, edited)));
    actions, t := Extend(jobs, s, compared, AboutToRename(original, output), edit);
    var edited' := actions;
    assert edited'[|compared|] == edit;
    actions, t := RenameAndReport(jobs, s, edited', t, original, edited, output);
    assert actions[|compared|] == edit;
  }

  /** From the gap to the report of success. */
  lemma RenameAndReport(jobs: Writer -> Job, s: State, before: seq<Action>, mid: State, original: string, edited: string, output: string)
    returns (actions: seq<Action>, t: State)
    requires Run(jobs, s, before) == Some(mid)
    requires mid == AboutToRename(original, output).(target := Some(File(0, edited)), edits := 1)
    ensures Run(jobs, s, actions) == Some(t) && before <= actions
    ensures 0 in t.pcs && t.pcs[0] == Ended(Updated) && Contents(t.target) == Some(output)
    ensures t.log == [Commit(0, Some(edited), output, true)]
  {
    actions, t := Extend(jobs, s, before, mid, Rename(0));
    assert t.pcs == map[0 := Renamed];
    actions, t := Extend(jobs, s, actions, t, SyncDirectory(0, true));
    actions, t := Extend(jobs, s, actions, t, Release(0));
  }

  lemma Extend(jobs: Writer -> Job, s: State, actions: seq<Action>, mid: State, a: Action) returns (longer: seq<Action>, t: State)
    requires Run(jobs, s, actions) == Some(mid) && Step(jobs, mid, a).Some?
    ensures longer == actions + [a] && Step(jobs, mid, a) == Some(t) && Run(jobs, s, longer) == Some(t)
  {
    longer, t := actions + [a], Step(jobs, mid, a).value;
    assert longer[..|longer| - 1] == actions;
  }
}
