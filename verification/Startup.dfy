/**
 Daemon start-up in crates/daemon/src/control.rs: take the lock, probe and remove a stale socket, bind,
 serve, close, let go. Any number of daemons take these steps in any order, may die at any point, and
 outsiders may tamper with the endpoint's path.
 */
module Startup {
  import opened Prelude

  type Daemon = nat

  /** What the socket's path names. */
  datatype Endpoint =
    | Nothing
    | NonSocket
    | Bound(owner: Daemon)
    | Foreign(live: bool)

  datatype Pc =
    | Starting
    | Locked
    | FoundSocket
    | Refused
    | Clear
    | Serving
    | Leaving
    | Exited

  /** A removal of the endpoint: who did it, what was there, and whether that was a live daemon's socket. */
  datatype Removal = Removal(remover: Daemon, endpoint: Endpoint, wasLive: bool)

  datatype State = State(
    lock: Option<Daemon>,
    endpoint: Endpoint,
    listening: set<Daemon>,
    pcs: map<Daemon, Pc>,
    removals: seq<Removal>)

  datatype Action =
    | TryLock(d: Daemon)
    | Inspect(d: Daemon)
    | Probe(d: Daemon, inTime: bool)
    | Remove(d: Daemon)
    | Bind(d: Daemon)
    | Stop(d: Daemon)
    | Release(d: Daemon)
    | Die(d: Daemon)
    | CloseOrphan(d: Daemon)
    | Tamper(to: Endpoint)

  /** A connection to the endpoint would be accepted. */
  predicate Answers(s: State) {
    match s.endpoint
    case Bound(d) => d in s.listening
    case Foreign(live) => live
    case _ => false
  }

  /** The endpoint is a daemon's socket that still listens. */
  predicate IsLiveDaemonSocket(s: State) {
    s.endpoint.Bound? && s.endpoint.owner in s.listening
  }

  function Goto(s: State, d: Daemon, pc: Pc): State {
    s.(pcs := s.pcs[d := pc])
  }

  function Step(s: State, a: Action): Option<State> {
    if a.Tamper? then Some(s.(endpoint := a.to))
    else if a.d !in s.pcs then None
    else DaemonStep(s, a, s.pcs[a.d])
  }

  function DaemonStep(s: State, a: Action, pc: Pc): Option<State>
    requires !a.Tamper? && a.d in s.pcs
  {
    var d := a.d;
    match a
    case TryLock(_) =>
      if !pc.Starting? then None
      else if s.lock.None? then Some(Goto(s, d, Locked).(lock := Some(d)))
      else Some(Goto(s, d, Exited))
    case Inspect(_) =>
      if !pc.Locked? then None
      else Some(Goto(s, d, if s.endpoint.Nothing? then Clear else if s.endpoint.NonSocket? then Leaving else FoundSocket))
    case Probe(_, inTime) =>
      if !pc.FoundSocket? then None
      // A path that vanished is an error; a file swapped in refuses like a dead socket.
      else Some(Goto(s, d, if !inTime || Answers(s) || s.endpoint.Nothing? then Leaving else Refused))
    case Remove(_) =>
      if !pc.Refused? then None
      else if s.endpoint.Nothing? then Some(Goto(s, d, Leaving))
      else Some(Goto(s, d, Clear).(endpoint := Nothing, removals := s.removals + [Removal(d, s.endpoint, IsLiveDaemonSocket(s))]))
    case Bind(_) =>
      if !pc.Clear? then None
      else if !s.endpoint.Nothing? then Some(Goto(s, d, Leaving))
      else Some(Goto(s, d, Serving).(endpoint := Bound(d), listening := s.listening + {d}))
    case Stop(_) =>
      if !pc.Serving? then None else Some(Goto(s, d, Leaving).(listening := s.listening - {d}))
    case Release(_) =>
      if !pc.Leaving? then None else Some(Goto(s, d, Exited).(lock := None))
    case Die(_) =>
      // The kernel closes a dead process's files in its own order, the listener perhaps last.
      if pc.Exited? then None
      else Some(Goto(s, d, Exited).(lock := if pc.Starting? then s.lock else None))
    case CloseOrphan(_) =>
      if !pc.Exited? then None else Some(s.(listening := s.listening - {d}))
  }

  predicate InsideLock(pc: Pc) {
    !pc.Starting? && !pc.Exited?
  }

  ghost predicate IsStart(s: State) {
    && s.lock.None? && s.listening == {} && s.removals == [] && !s.endpoint.Bound?
    && forall d | d in s.pcs :: s.pcs[d] == Starting
  }

  function Run(s: State, actions: seq<Action>): Option<State> {
    if actions == [] then Some(s)
    else
      var mid := Run(s, actions[..|actions| - 1]);
      if mid.None? then None else Step(mid.value, actions[|actions| - 1])
  }

  // ---------------------------------------------------------------------
  // What every step keeps
  // ---------------------------------------------------------------------

  ghost predicate DaemonStands(s: State, d: Daemon)
    requires d in s.pcs
  {
    && (InsideLock(s.pcs[d]) <==> s.lock == Some(d))
    && (s.pcs[d] == Serving ==> d in s.listening)
    && (d in s.listening ==> s.pcs[d] == Serving || s.pcs[d] == Exited)
  }

  ghost predicate Inv(s: State) {
    && (forall d | d in s.pcs :: DaemonStands(s, d))
    && (forall d | d in s.listening :: d in s.pcs)
  }

  lemma StepKeepsStand(s: State, a: Action, t: State, d: Daemon)
    requires Inv(s) && Step(s, a) == Some(t) && d in s.pcs
    ensures d in t.pcs && DaemonStands(t, d)
  {
    assert DaemonStands(s, d);
    if !a.Tamper? {
      assert DaemonStands(s, a.d);
    }
  }

  lemma StepKeepsInv(s: State, a: Action, t: State)
    requires Inv(s) && Step(s, a) == Some(t)
    ensures Inv(t)
  {
    assert t.pcs.Keys == s.pcs.Keys;
    forall d | d in t.pcs
      ensures DaemonStands(t, d)
    {
      StepKeepsStand(s, a, t, d);
    }
  }

  lemma {:induction false} RunKeepsInv(s: State, actions: seq<Action>, t: State)
    requires IsStart(s) && Run(s, actions) == Some(t)
    ensures Inv(t)
    decreases |actions|
  {
    if actions != [] {
      var mid := Run(s, actions[..|actions| - 1]).value;
      RunKeepsInv(s, actions[..|actions| - 1], mid);
      StepKeepsInv(mid, actions[|actions| - 1], t);
    }
  }

  // ---------------------------------------------------------------------
  // Main results
  // ---------------------------------------------------------------------

  /** At most one daemon is between taking the lock and ending its serve. */
  lemma DaemonsExclude(s: State, actions: seq<Action>, t: State, d: Daemon, e: Daemon)
    requires IsStart(s) && Run(s, actions) == Some(t)
    requires d in t.pcs && e in t.pcs && InsideLock(t.pcs[d]) && InsideLock(t.pcs[e])
    ensures d == e && t.lock == Some(d)
  {
    RunKeepsInv(s, actions, t);
    assert DaemonStands(t, d) && DaemonStands(t, e);
  }

  ghost predicate LockedAt(s: State, actions: seq<Action>, k: nat, d: Daemon)
    requires k <= |actions|
  {
    Run(s, actions[..k]).Some? && Run(s, actions[..k]).value.lock == Some(d)
  }

  /** Daemon `d` has held the lock ever since its action at `probe`. */
  ghost predicate HeldSince(s: State, actions: seq<Action>, probe: nat, d: Daemon) {
    forall k | probe < k <= |actions| :: LockedAt(s, actions, k, d)
  }

  lemma HeldOn(s: State, actions: seq<Action>, probe: nat, d: Daemon)
    requires actions != [] && probe < |actions|
    requires probe == |actions| - 1 || HeldSince(s, actions[..|actions| - 1], probe, d)
    requires LockedAt(s, actions, |actions|, d)
    ensures HeldSince(s, actions, probe, d)
  {
    var n := |actions| - 1;
    forall k | probe < k <= |actions|
      ensures LockedAt(s, actions, k, d)
    {
      if k <= n {
        assert actions[..n][..k] == actions[..k] && LockedAt(s, actions[..n], k, d);
      }
    }
  }

  lemma RefusedHoldsTheLock(s: State, actions: seq<Action>, t: State, d: Daemon)
    requires IsStart(s) && Run(s, actions) == Some(t) && d in t.pcs && t.pcs[d] == Refused
    ensures actions != [] && LockedAt(s, actions, |actions|, d)
  {
    RunKeepsInv(s, actions, t);
    assert DaemonStands(t, d) && actions[..|actions|] == actions;
  }

  // ---------------------------------------------------------------------
  // Steps
  // ---------------------------------------------------------------------

  /** When each step can be taken: by a daemon at that point, death at any point before the end, and the
      closing of a dead daemon's listener at any later time. */
  lemma WhatDaemonsCanDo(s: State, d: Daemon, inTime: bool)
    requires d in s.pcs
    ensures var pc := s.pcs[d];
            && (Step(s, TryLock(d)).Some? <==> pc == Starting)
            && (Step(s, Inspect(d)).Some? <==> pc == Locked)
            && (Step(s, Probe(d, inTime)).Some? <==> pc == FoundSocket)
            && (Step(s, Remove(d)).Some? <==> pc == Refused)
            && (Step(s, Bind(d)).Some? <==> pc == Clear)
            && (Step(s, Stop(d)).Some? <==> pc == Serving)
            && (Step(s, Release(d)).Some? <==> pc == Leaving)
            && (Step(s, Die(d)).Some? <==> pc != Exited)
            && (Step(s, CloseOrphan(d)).Some? <==> pc == Exited)
  {
  }

  /** What is under the path changes only by a removal, by a daemon binding where there is nothing, and by
      outsiders; and a daemon listens from its binding until it stops or its remains are closed. */
  lemma WhatStepsChange(s: State, a: Action, t: State)
    requires Step(s, a) == Some(t)
    ensures t.endpoint == s.endpoint
            || a == Tamper(t.endpoint)
            || (a.Remove? && t.endpoint == Nothing)
            || (a.Bind? && s.endpoint == Nothing && t.endpoint == Bound(a.d) && t.pcs[a.d] == Serving)
    ensures t.listening ==
            if a.Bind? && s.endpoint == Nothing then s.listening + {a.d}
            else if a.Stop? || a.CloseOrphan? then s.listening - {a.d}
            else s.listening
  {
  }

  // ---------------------------------------------------------------------
  // Only sockets are probed and removed
  // ---------------------------------------------------------------------

  predicate IsSocket(e: Endpoint) {
    e.Bound? || e.Foreign?
  }

  /** The state in which action `k` is taken. */
  ghost predicate InspectedAt(s: State, actions: seq<Action>, k: nat, d: Daemon, found: Endpoint) {
    && k < |actions| && actions[k] == Inspect(d)
    && Run(s, actions[..k]).Some? && Run(s, actions[..k]).value.endpoint == found
  }

  lemma PastInspection(s: State, a: Action, t: State, d: Daemon)
    requires Step(s, a) == Some(t) && d in t.pcs && t.pcs[d] in {FoundSocket, Refused}
    ensures d in s.pcs
    ensures s.pcs[d] in {FoundSocket, Refused} || (a == Inspect(d) && IsSocket(s.endpoint))
  {
  }

  /** A daemon that probes the endpoint, or was refused by it, found a socket there when it inspected it. */
  lemma {:induction false} ASocketWasFound(s: State, actions: seq<Action>, t: State, d: Daemon) returns (k: nat, found: Endpoint)
    requires IsStart(s) && Run(s, actions) == Some(t) && d in t.pcs && t.pcs[d] in {FoundSocket, Refused}
    ensures InspectedAt(s, actions, k, d, found) && IsSocket(found)
    decreases |actions|
  {
    assert actions != [];
    var n := |actions| - 1;
    var mid := Run(s, actions[..n]).value;
    PastInspection(mid, actions[n], t, d);
    if mid.pcs[d] in {FoundSocket, Refused} {
      k, found := ASocketWasFound(s, actions[..n], mid, d);
      assert actions[..n][..k] == actions[..k];
    } else {
      k, found := n, mid.endpoint;
    }
  }

  /** Every removal, tampered with or not, was made by a daemon whose inspection had found a socket. */
  lemma RemoversFoundASocket(s: State, actions: seq<Action>, t: State, i: nat) returns (k: nat, n: nat, found: Endpoint)
    requires IsStart(s) && Run(s, actions) == Some(t) && i < |t.removals|
    ensures k < n < |actions| && actions[n] == Remove(t.removals[i].remover)
    ensures InspectedAt(s, actions, k, t.removals[i].remover, found) && IsSocket(found)
  {
    n := RemovalStep(s, actions, t, i);
    k, found := ASocketWasFound(s, actions[..n], Run(s, actions[..n]).value, t.removals[i].remover);
    assert actions[..n][..k] == actions[..k];
  }

  /** A connection is accepted exactly by a daemon that listens on its own socket or by a live foreign one;
      a dead socket, a plain file and a missing path refuse. */
  lemma WhatAnswers(s: State)
    ensures Answers(s) <==>
            || s.endpoint == Foreign(true)
            || exists d :: s.endpoint == Bound(d) && d in s.listening
  {
  }

  /** A foreign socket on which somebody listens is left in place, unless it is tampered with. */
  lemma {:induction false} LiveForeignSocketStays(s: State, actions: seq<Action>, t: State)
    requires IsStart(s) && Run(s, actions) == Some(t) && NoTampering(actions) && s.endpoint == Foreign(true)
    ensures t.endpoint == Foreign(true) && t.removals == []
    ensures forall d | d in t.pcs :: t.pcs[d] !in {Refused, Clear, Serving}
    decreases |actions|
  {
    if actions != [] {
      var n := |actions| - 1;
      var mid := Run(s, actions[..n]).value;
      assert actions[n] in actions && forall a | a in actions[..n] :: a in actions;
      LiveForeignSocketStays(s, actions[..n], mid);
      assert t.pcs.Keys == mid.pcs.Keys;
    }
  }

  /** Once a daemon's inspection has found something else, it only lets go. */
  ghost predicate OnlyLetsGo(s: State, d: Daemon) {
    d in s.pcs && s.pcs[d] in {Leaving, Exited}
  }

  lemma {:induction false} NonSocketIsLeft(s: State, actions: seq<Action>, t: State, k: nat, d: Daemon)
    requires Run(s, actions) == Some(t) && InspectedAt(s, actions, k, d, NonSocket)
    ensures OnlyLetsGo(t, d)
    decreases |actions|
  {
    var n := |actions| - 1;
    if k < n {
      assert actions[..n][..k] == actions[..k];
      NonSocketIsLeft(s, actions[..n], Run(s, actions[..n]).value, k, d);
    }
  }

  /** While a non-socket is under the path nobody is past finding a socket there, nor free to bind. */
  ghost predicate NonSocketStands(s: State) {
    s.endpoint.NonSocket? ==> forall d | d in s.pcs :: s.pcs[d] !in {FoundSocket, Refused, Clear}
  }

  lemma {:induction false} UntamperedNonSocketStands(s: State, actions: seq<Action>, t: State)
    requires IsStart(s) && Run(s, actions) == Some(t) && NoTampering(actions)
    ensures NonSocketStands(t) && (t.endpoint.NonSocket? <==> s.endpoint.NonSocket?)
    ensures forall r | r in t.removals :: !r.endpoint.NonSocket?
    decreases |actions|
  {
    if actions != [] {
      var n := |actions| - 1;
      var mid := Run(s, actions[..n]).value;
      assert actions[n] in actions && forall a | a in actions[..n] :: a in actions;
      UntamperedNonSocketStands(s, actions[..n], mid);
      assert t.pcs.Keys == mid.pcs.Keys;
    }
  }

  /** Without tampering nothing but a socket is ever removed, and a file that is no socket stays. */
  lemma NonSocketsAreNeverRemoved(s: State, actions: seq<Action>, t: State, i: nat)
    requires IsStart(s) && Run(s, actions) == Some(t) && NoTampering(actions)
    ensures i < |t.removals| ==> IsSocket(t.removals[i].endpoint)
    ensures s.endpoint.NonSocket? ==> t.endpoint.NonSocket? && t.removals == [] && forall d | d in t.pcs :: t.pcs[d] != Serving
  {
    UntamperedNonSocketStands(s, actions, t);
    RemovedSomething(s, actions, t);
    if s.endpoint.NonSocket? {
      UntamperedNonSocketServesNobody(s, actions, t);
    }
  }

  lemma {:induction false} RemovedSomething(s: State, actions: seq<Action>, t: State)
    requires IsStart(s) && Run(s, actions) == Some(t)
    ensures forall r | r in t.removals :: !r.endpoint.Nothing?
    decreases |actions|
  {
    if actions != [] {
      RemovedSomething(s, actions[..|actions| - 1], Run(s, actions[..|actions| - 1]).value);
    }
  }

  lemma {:induction false} UntamperedNonSocketServesNobody(s: State, actions: seq<Action>, t: State)
    requires IsStart(s) && Run(s, actions) == Some(t) && NoTampering(actions) && s.endpoint.NonSocket?
    ensures t.removals == [] && forall d | d in t.pcs :: t.pcs[d] != Serving
    decreases |actions|
  {
    if actions != [] {
      var n := |actions| - 1;
      var mid := Run(s, actions[..n]).value;
      assert actions[n] in actions && forall a | a in actions[..n] :: a in actions;
      UntamperedNonSocketServesNobody(s, actions[..n], mid);
      UntamperedNonSocketStands(s, actions[..n], mid);
      assert t.pcs.Keys == mid.pcs.Keys;
    }
  }

  /** Only the daemon holding the lock removes the endpoint, and it does so only after its probe of a
      socket was refused, holding the lock ever since. */
  lemma RemovalFollowsRefusal(s: State, actions: seq<Action>, t: State, d: Daemon) returns (probe: nat)
    requires IsStart(s) && Run(s, actions) == Some(t)
    requires d in t.pcs && t.pcs[d] == Refused
    ensures probe < |actions| && actions[probe] == Probe(d, true)
    ensures var at := Run(s, actions[..probe]); at.Some? && d in at.value.pcs && at.value.pcs[d] == FoundSocket && !Answers(at.value)
    ensures HeldSince(s, actions, probe, d)
    decreases |actions|
  {
    RefusedHoldsTheLock(s, actions, t, d);
    var n := |actions| - 1;
    var mid := Run(s, actions[..n]).value;
    if d in mid.pcs && mid.pcs[d] == Refused {
      probe := RemovalFollowsRefusal(s, actions[..n], mid, d);
      assert actions[..n][..probe] == actions[..probe];
    } else {
      probe := n;
    }
    HeldOn(s, actions, probe, d);
  }

  lemma {:induction false} RemovalStep(s: State, actions: seq<Action>, t: State, i: nat) returns (n: nat)
    requires Run(s, actions) == Some(t) && |s.removals| <= i < |t.removals|
    ensures n < |actions| && actions[n] == Remove(t.removals[i].remover)
    ensures Run(s, actions[..n]).Some?
    ensures var at := Run(s, actions[..n]).value;
            && t.removals[i].remover in at.pcs && at.pcs[t.removals[i].remover] == Refused
            && t.removals[i].endpoint == at.endpoint
            && t.removals[i].wasLive == IsLiveDaemonSocket(at)
    decreases |actions|
  {
    var last := |actions| - 1;
    var mid := Run(s, actions[..last]).value;
    if i < |mid.removals| {
      n := RemovalStep(s, actions[..last], mid, i);
      assert actions[..last][..n] == actions[..n];
    } else {
      n := last;
    }
  }

  /** Every removal in every run: its daemon probed a socket, was refused, and held the lock from then
      until it removed the path. */
  lemma EveryRemovalFollowsARefusal(s: State, actions: seq<Action>, t: State, i: nat) returns (probe: nat, n: nat)
    requires IsStart(s) && Run(s, actions) == Some(t) && i < |t.removals|
    ensures probe < n < |actions|
    ensures actions[probe] == Probe(t.removals[i].remover, true) && actions[n] == Remove(t.removals[i].remover)
    ensures Run(s, actions[..probe]).Some? && !Answers(Run(s, actions[..probe]).value)
    ensures HeldSince(s, actions[..n], probe, t.removals[i].remover)
  {
    n := RemovalStep(s, actions, t, i);
    var at := Run(s, actions[..n]).value;
    probe := RemovalFollowsRefusal(s, actions[..n], at, t.removals[i].remover);
    assert actions[..n][..probe] == actions[..probe];
  }

  /** An outsider may put a daemon's own socket, moved aside before, back under the path. */
  predicate PutsBack(a: Action, d: Daemon) {
    a.Tamper? && a.to == Bound(d)
  }

  /** While a refused daemon holds the lock, a listening daemon's socket comes under the path only by
      being put back. */
  lemma StaysStale(s: State, a: Action, t: State, d: Daemon)
    requires Inv(s) && Step(s, a) == Some(t)
    requires d in s.pcs && s.pcs[d] == Refused && d in t.pcs && t.pcs[d] == Refused
    requires IsLiveDaemonSocket(t)
    ensures (IsLiveDaemonSocket(s) && s.endpoint == t.endpoint) || PutsBack(a, t.endpoint.owner)
  {
    assert DaemonStands(s, d);
    if !a.Tamper? {
      assert DaemonStands(s, a.d);
    }
  }

  /** A daemon is refused only when no listening daemon's socket is under the path. */
  lemma RefusalMeansStale(s: State, a: Action, t: State, d: Daemon)
    requires Step(s, a) == Some(t) && d in s.pcs && s.pcs[d] != Refused && d in t.pcs && t.pcs[d] == Refused
    ensures !IsLiveDaemonSocket(t)
  {
  }

  ghost predicate RefusedAt(s: State, actions: seq<Action>, k: nat, d: Daemon)
    requires k <= |actions|
  {
    var at := Run(s, actions[..k]);
    at.Some? && d in at.value.pcs && at.value.pcs[d] == Refused
  }

  /** The live socket under a refused daemon's path was put back since the refusal. */
  lemma {:induction false} WasPutBack(s: State, actions: seq<Action>, t: State, d: Daemon) returns (k: nat)
    requires IsStart(s) && Run(s, actions) == Some(t)
    requires d in t.pcs && t.pcs[d] == Refused && IsLiveDaemonSocket(t)
    ensures k < |actions| && PutsBack(actions[k], t.endpoint.owner) && RefusedAt(s, actions, k, d)
    decreases |actions|
  {
    assert actions != [];
    var n := |actions| - 1;
    var mid := Run(s, actions[..n]).value;
    RunKeepsInv(s, actions[..n], mid);
    if d in mid.pcs && mid.pcs[d] == Refused {
      StaysStale(mid, actions[n], t, d);
      if IsLiveDaemonSocket(mid) && mid.endpoint == t.endpoint {
        k := WasPutBack(s, actions[..n], mid, d);
        assert actions[..n][..k] == actions[..k];
      } else {
        k := n;
      }
    } else {
      RefusalMeansStale(mid, actions[n], t, d);
    }
  }

  /** A removed socket on which a daemon still listened, even one that died a moment ago and whose listener
      outlived its lock, was put back under the path by an outsider after the remover's probe was refused. */
  lemma RemovedLiveSocketWasPutBack(s: State, actions: seq<Action>, t: State, i: nat) returns (k: nat, n: nat)
    requires IsStart(s) && Run(s, actions) == Some(t) && i < |t.removals| && t.removals[i].wasLive
    ensures k < n < |actions| && actions[n] == Remove(t.removals[i].remover)
    ensures t.removals[i].endpoint.Bound? && PutsBack(actions[k], t.removals[i].endpoint.owner)
    ensures RefusedAt(s, actions, k, t.removals[i].remover)
  {
    n := RemovalStep(s, actions, t, i);
    k := WasPutBack(s, actions[..n], Run(s, actions[..n]).value, t.removals[i].remover);
    assert actions[..n][..k] == actions[..k];
  }

  /** Unless an outsider puts a daemon's socket back, no daemon removes one on which a daemon listens. */
  lemma LiveSocketsAreNeverRemoved(s: State, actions: seq<Action>, t: State, i: nat)
    requires IsStart(s) && Run(s, actions) == Some(t) && i < |t.removals|
    requires forall a | a in actions :: !(a.Tamper? && a.to.Bound?)
    ensures !t.removals[i].wasLive
  {
    if t.removals[i].wasLive {
      var k, n := RemovedLiveSocketWasPutBack(s, actions, t, i);
    }
  }

  // ---------------------------------------------------------------------
  // Runs that happen
  // ---------------------------------------------------------------------

  lemma Extend(s: State, actions: seq<Action>, mid: State, a: Action) returns (longer: seq<Action>, t: State)
    requires Run(s, actions) == Some(mid) && Step(mid, a).Some?
    ensures longer == actions + [a] && Step(mid, a) == Some(t) && Run(s, longer) == Some(t)
  {
    longer, t := actions + [a], Step(mid, a).value;
    assert longer[..|longer| - 1] == actions;
  }

  /** A daemon that finds a stale socket removes it and serves. */
  lemma StaleSocketIsReplaced(d: Daemon) returns (actions: seq<Action>, t: State)
    ensures var s := State(None, Foreign(false), {}, map[d := Starting], []);
            IsStart(s) && Run(s, actions) == Some(t)
    ensures t.pcs == map[d := Serving] && t.endpoint == Bound(d) && t.removals == [Removal(d, Foreign(false), false)]
  {
    var s := State(None, Foreign(false), {}, map[d := Starting], []);
    var refused := State(Some(d), Foreign(false), {}, map[d := Refused], []);
    actions := StaleSocketRefuses(s, [], s, d);
    assert refused == Refusing(s, d);
    actions, t := Extend(s, actions, refused, Remove(d));
    assert t.pcs == map[d := Clear];
    actions, t := Extend(s, actions, t, Bind(d));
  }

  function Refusing(s: State, d: Daemon): State {
    s.(lock := Some(d), pcs := s.pcs[d := Refused])
  }

  /** From finding a dead socket to having it refuse. */
  lemma StaleSocketRefuses(s: State, actions: seq<Action>, mid: State, d: Daemon) returns (longer: seq<Action>)
    requires Run(s, actions) == Some(mid) && mid.lock.None? && mid.endpoint == Foreign(false)
    requires d in mid.pcs && mid.pcs[d] == Starting
    ensures Run(s, longer) == Some(Refusing(mid, d))
  {
    var t;
    longer, t := Extend(s, actions, mid, TryLock(d));
    longer, t := Extend(s, longer, t, Inspect(d));
    longer, t := Extend(s, longer, t, Probe(d, true));
    assert t.pcs == mid.pcs[d := Refused];
  }

  /** A daemon that serves and dies before its listener is closed. */
  lemma ServesAndDies(s: State, d: Daemon) returns (actions: seq<Action>)
    requires s.lock.None? && s.endpoint.Nothing? && d in s.pcs && s.pcs[d] == Starting
    ensures Run(s, actions) == Some(s.(endpoint := Bound(d), listening := s.listening + {d}, pcs := s.pcs[d := Exited]))
  {
    var t;
    actions, t := Extend(s, [], s, TryLock(d));
    actions, t := Extend(s, actions, t, Inspect(d));
    actions, t := Extend(s, actions, t, Bind(d));
    actions, t := Extend(s, actions, t, Die(d));
    assert t.pcs == s.pcs[d := Exited];
  }

  /** A daemon that stops lets the next one take over its dead socket. */
  lemma NextDaemonTakesOver(d: Daemon, e: Daemon) returns (actions: seq<Action>, t: State)
    requires d != e
    ensures Run(State(Some(d), Bound(d), {d}, map[d := Serving, e := Starting], []), actions) == Some(t)
    ensures t.endpoint == Bound(e) && t.listening == {e} && t.lock == Some(e) && t.pcs == map[d := Exited, e := Serving]
  {
    var s := State(Some(d), Bound(d), {d}, map[d := Serving, e := Starting], []);
    actions, t := Extend(s, [], s, Stop(d));
    actions, t := Extend(s, actions, t, Release(d));
    assert t == State(None, Bound(d), {}, map[d := Exited, e := Starting], []);
    actions, t := TakeOver(s, actions, t, d, e);
  }

  lemma TakeOver(s: State, before: seq<Action>, mid: State, d: Daemon, e: Daemon) returns (actions: seq<Action>, t: State)
    requires d != e && Run(s, before) == Some(mid) && mid == State(None, Bound(d), {}, map[d := Exited, e := Starting], [])
    ensures Run(s, actions) == Some(t)
    ensures t.endpoint == Bound(e) && t.listening == {e} && t.lock == Some(e) && t.pcs == map[d := Exited, e := Serving]
  {
    actions, t := Extend(s, before, mid, TryLock(e));
    actions, t := Extend(s, actions, t, Inspect(e));
    assert t == State(Some(e), Bound(d), {}, map[d := Exited, e := FoundSocket], []);
    actions, t := Extend(s, actions, t, Probe(e, true));
    actions, t := Extend(s, actions, t, Remove(e));
    assert t.pcs == map[d := Exited, e := Clear];
    actions, t := Extend(s, actions, t, Bind(e));
  }

  /** Putting a socket back in that gap does get it removed: one daemon dies with its listener still open,
      its socket is moved aside, and comes back after the next daemon's probe. */
  lemma SocketPutBackIsRemoved(d: Daemon, e: Daemon) returns (actions: seq<Action>, t: State)
    requires d != e
    ensures var s := State(None, Nothing, {}, map[d := Starting, e := Starting], []);
            IsStart(s) && Run(s, actions) == Some(t)
    ensures t.removals == [Removal(e, Bound(d), true)]
  {
    var s := State(None, Nothing, {}, map[d := Starting, e := Starting], []);
    actions := ServesAndDies(s, d);
    t := s.(endpoint := Bound(d), listening := s.listening + {d}, pcs := s.pcs[d := Exited]);
    actions, t := Extend(s, actions, t, Tamper(Foreign(false)));
    actions := StaleSocketRefuses(s, actions, t, e);
    actions, t := Extend(s, actions, Refusing(t, e), Tamper(Bound(d)));
    actions, t := Extend(s, actions, t, Remove(e));
  }

  ghost predicate NoTampering(actions: seq<Action>) {
    forall a | a in actions :: !a.Tamper?
  }

  /** Left alone, the endpoint of a serving daemon is its own socket and answers. */
  lemma {:induction false} ServingDaemonAnswers(s: State, actions: seq<Action>, t: State, d: Daemon)
    requires IsStart(s) && Run(s, actions) == Some(t) && NoTampering(actions)
    requires d in t.pcs && t.pcs[d] == Serving
    ensures t.endpoint == Bound(d) && Answers(t)
    decreases |actions|
  {
    RunKeepsInv(s, actions, t);
    assert DaemonStands(t, d);
    if actions != [] {
      var n := |actions| - 1;
      var before, a := actions[..n], actions[n];
      assert a in actions && forall b | b in before :: b in actions;
      var mid := Run(s, before).value;
      RunKeepsInv(s, before, mid);
      assert d in mid.pcs && DaemonStands(mid, d);
      if mid.pcs[d] == Serving {
        ServingDaemonAnswers(s, before, mid, d);
        assert a.d in mid.pcs && DaemonStands(mid, a.d);
      }
    }
  }
}
