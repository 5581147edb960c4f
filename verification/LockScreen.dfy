/**
 The presence machine that crates/cli/src/setup/lock.rs generates into the lock screen: a hold timer, one
 PAM context, and the stock lock's events. Each event runs to completion before the next.
 */
module LockScreen {
  import opened Prelude

  /** `pam` is the attempt the PAM context is running, from its start until its completion is delivered,
      an abort notwithstanding; `unlocking` is whether the last event called `finishUnlock`. */
  datatype State = State(
    lockRequested: bool,
    secure: bool,
    passwordInFlight: bool,
    presenceConfigured: bool,
    timerRunning: bool,
    presenceAuthenticating: bool,
    pam: Option<nat>,
    attempts: nat,
    unlocking: bool)

  datatype Event =
    | LockRequested
    | LockDropped
    | SecureChanged(secure: bool)
    | ResetAuthentication(dropsPassword: bool)
    | Submit(nonEmpty: bool)
    | PasswordDone
    | PolicyLoaded
    | PolicyGone
    | Hold
    | Release
    | TimerFires(started: bool)
    | PamCompleted(success: bool)
    | PamError(ends: bool)

  const START := State(false, false, false, false, false, false, None, 0, false)

  /** `cancelPresence`: stops the timer and stops waiting; the aborted attempt still completes later. */
  function CancelPresence(s: State): State {
    s.(timerRunning := false, presenceAuthenticating := false)
  }

  /** The session is locked and nobody is typing a password: what every presence step checks. */
  predicate Admissible(s: State) {
    s.lockRequested && s.secure && !s.passwordInFlight
  }

  /** What the caller of `hold` is told. */
  datatype HoldReply = NotLocked | Busy | MissingPam | Holding

  function ReplyToHold(s: State): HoldReply {
    if !s.lockRequested || !s.secure then NotLocked
    else if s.passwordInFlight || s.presenceAuthenticating || s.pam.Some? || s.timerRunning then Busy
    else if !s.presenceConfigured then MissingPam
    else Holding
  }

  predicate AcceptsHold(s: State) {
    ReplyToHold(s) == Holding
  }

  predicate AcceptsSubmit(s: State, nonEmpty: bool) {
    s.lockRequested && !s.passwordInFlight && nonEmpty
  }

  /** The effect of one event, or None when the event cannot happen. */
  function Step(was: State, e: Event): Option<State> {
    var s := was.(unlocking := false);
    match e
    case LockRequested => Some(s.(lockRequested := true))
    case LockDropped => Some(s.(lockRequested := false))
    case SecureChanged(secure) => Some(s.(secure := secure))
    case ResetAuthentication(dropsPassword) =>
      Some(CancelPresence(s).(passwordInFlight := s.passwordInFlight && !dropsPassword))
    case Submit(nonEmpty) =>
      Some(if AcceptsSubmit(s, nonEmpty) then CancelPresence(s).(passwordInFlight := true) else s)
    case PasswordDone => Some(s.(passwordInFlight := false))
    case PolicyLoaded => Some(s.(presenceConfigured := true))
    case PolicyGone => Some(CancelPresence(s.(presenceConfigured := false)))
    case Hold => Some(if AcceptsHold(s) then s.(timerRunning := true) else s)
    case Release => Some(s.(timerRunning := false))
    case TimerFires(started) =>
      if !s.timerRunning then None
      else
        var fired := s.(timerRunning := false);
        Some(if !Admissible(s) then CancelPresence(fired)
             else if !started then fired.(presenceAuthenticating := false)
             else fired.(presenceAuthenticating := true, pam := Some(s.attempts), attempts := s.attempts + 1))
    case PamCompleted(success) =>
      if s.pam.None? then None
      else
        var done := s.(pam := None);
        Some(if !s.presenceAuthenticating then done
             else if !Admissible(s) then done.(presenceAuthenticating := false)
             else done.(presenceAuthenticating := false, unlocking := success))
    case PamError(ends) =>
      if s.pam.None? then None
      else Some(s.(presenceAuthenticating := false, pam := if ends then None else s.pam))
  }

  /** A run of the machine: `states[k]` is the state in which event `k` arrives. */
  datatype Run = Run(events: seq<Event>, states: seq<State>)
  {
    ghost predicate Valid() {
      && |states| == |events| + 1
      && states[0] == START
      && forall k | 0 <= k < |events| :: Follows(k)
    }

    predicate Follows(k: nat)
      requires k < |events| && |states| == |events| + 1
    {
      Step(states[k], events[k]) == Some(states[k + 1])
    }

    /** The run goes on with one more event. */
    function Extended(e: Event): Run
      requires states != [] && Step(states[|states| - 1], e).Some?
    {
      Run(events + [e], states + [Step(states[|states| - 1], e).value])
    }

    function Last(): State
      requires states != []
    {
      states[|states| - 1]
    }
  }

  lemma ExtendedIsValid(r: Run, e: Event)
    requires r.Valid() && Step(r.Last(), e).Some?
    ensures r.Extended(e).Valid() && r.Extended(e).Last() == Step(r.Last(), e).value
  {
    var x := r.Extended(e);
    forall k | 0 <= k < |x.events|
      ensures x.Follows(k)
    {
      assert k < |r.events| ==> r.Follows(k);
    }
  }

  // ---------------------------------------------------------------------
  // Invariants
  // ---------------------------------------------------------------------

  ghost predicate Inv(s: State) {
    && (s.passwordInFlight ==> !s.timerRunning && !s.presenceAuthenticating)
    && (s.timerRunning ==> s.pam.None? && !s.presenceAuthenticating)
    && (s.presenceAuthenticating ==> s.pam.Some?)
    && (s.pam.Some? ==> s.pam.value < s.attempts)
  }

  lemma StepKeepsInv(s: State, e: Event, t: State)
    requires Inv(s) && Step(s, e) == Some(t)
    ensures Inv(t)
  {
  }

  /** A password in flight excludes a running hold and a presence attempt; a hold and an attempt exclude
      each other; and an attempt being waited for is one PAM is running. */
  lemma {:induction false} AuthenticatorsExclude(r: Run, k: nat)
    requires r.Valid() && k <= |r.events|
    ensures Inv(r.states[k])
  {
    if k > 0 {
      AuthenticatorsExclude(r, k - 1);
      assert r.Follows(k - 1);
      StepKeepsInv(r.states[k - 1], r.events[k - 1], r.states[k]);
    }
  }

  // ---------------------------------------------------------------------
  // What the state says about the run
  // ---------------------------------------------------------------------

  /** The event calls `cancelPresence`: a reset, the policy going away, or a password being sent. */
  predicate Cancels(s: State, e: Event) {
    e.ResetAuthentication? || e.PolicyGone? || (e == Submit(true) && s.lockRequested && !s.passwordInFlight)
  }

  predicate EndsHold(s: State, e: Event) {
    Cancels(s, e) || e.Release? || e.TimerFires?
  }

  predicate EndsAttempt(s: State, e: Event) {
    Cancels(s, e) || e.PamCompleted? || e.PamError?
  }

  /** A hold that starts: the session is locked and secure, the policy exists, and nothing else is under way. */
  predicate StartsHold(s: State, e: Event) {
    && e == Hold
    && s.lockRequested && s.secure && s.presenceConfigured
    && !s.passwordInFlight && !s.presenceAuthenticating && s.pam == None && !s.timerRunning
  }

  /** A hold that completes in a locked, secure session with no password in flight, and PAM starting. */
  predicate StartsAttempt(s: State, e: Event) {
    e == TimerFires(true) && s.lockRequested && s.secure && !s.passwordInFlight
  }

  /** Event `h` was an accepted hold, and nothing before event `k` ended it. */
  ghost predicate HeldSince(r: Run, h: nat, k: nat)
    requires r.Valid() && k <= |r.events|
  {
    && h < k && StartsHold(r.states[h], r.events[h])
    && forall j | h < j < k :: !EndsHold(r.states[j], r.events[j])
  }

  /** Event `t` completed a hold and started an attempt, and nothing before event `k` ended that. */
  ghost predicate AttemptSince(r: Run, t: nat, k: nat)
    requires r.Valid() && k <= |r.events|
  {
    && t < k && StartsAttempt(r.states[t], r.events[t])
    && forall j | t < j < k :: !EndsAttempt(r.states[j], r.events[j])
  }

  lemma TimerStep(s: State, e: Event, t: State)
    requires Step(s, e) == Some(t)
    ensures t.timerRunning <==> (s.timerRunning && !EndsHold(s, e)) || StartsHold(s, e)
  {
    match e {
      case Hold =>
      case TimerFires(_) =>
      case _ =>
    }
  }

  lemma WaitingStep(s: State, e: Event, t: State)
    requires Inv(s) && Step(s, e) == Some(t)
    ensures t.presenceAuthenticating <==> (s.presenceAuthenticating && !EndsAttempt(s, e)) || StartsAttempt(s, e)
  {
    match e {
      case Submit(_) =>
      case TimerFires(_) =>
      case PamCompleted(_) =>
      case _ =>
    }
  }

  lemma UnlockStep(s: State, e: Event, t: State)
    requires Step(s, e) == Some(t)
    ensures t.unlocking <==> e == PamCompleted(true) && s.presenceAuthenticating && Admissible(s)
  {
  }

  /** An attempt starts with PAM idle and gets the next number; what goes on keeps its number. */
  lemma PamStep(s: State, e: Event, t: State)
    requires Inv(s) && Step(s, e) == Some(t)
    ensures StartsAttempt(s, e) ==> s.pam == None && t.pam == Some(s.attempts)
    ensures s.presenceAuthenticating && !EndsAttempt(s, e) ==> t.pam == s.pam
  {
  }

  lemma HeldSinceStep(r: Run, h: nat, k: nat)
    requires r.Valid() && 0 < k <= |r.events|
    ensures HeldSince(r, h, k) <==>
            || (h == k - 1 && StartsHold(r.states[h], r.events[h]))
            || (h < k - 1 && HeldSince(r, h, k - 1) && !EndsHold(r.states[k - 1], r.events[k - 1]))
  {
  }

  lemma AttemptSinceStep(r: Run, t: nat, k: nat)
    requires r.Valid() && 0 < k <= |r.events|
    ensures AttemptSince(r, t, k) <==>
            || (t == k - 1 && StartsAttempt(r.states[t], r.events[t]))
            || (t < k - 1 && AttemptSince(r, t, k - 1) && !EndsAttempt(r.states[k - 1], r.events[k - 1]))
  {
  }

  lemma {:induction false} TimerMeansHeld(r: Run, k: nat)
    requires r.Valid() && k <= |r.events|
    ensures r.states[k].timerRunning <==> exists h: nat :: HeldSince(r, h, k)
  {
    if k > 0 {
      TimerMeansHeld(r, k - 1);
      assert r.Follows(k - 1);
      TimerStep(r.states[k - 1], r.events[k - 1], r.states[k]);
      forall h: nat
        ensures HeldSince(r, h, k) <==>
                || (h == k - 1 && StartsHold(r.states[k - 1], r.events[k - 1]))
                || (h < k - 1 && HeldSince(r, h, k - 1) && !EndsHold(r.states[k - 1], r.events[k - 1]))
      {
        HeldSinceStep(r, h, k);
      }
      if StartsHold(r.states[k - 1], r.events[k - 1]) {
        assert HeldSince(r, k - 1, k);
      } else if r.states[k].timerRunning {
        var h: nat :| HeldSince(r, h, k - 1);
        assert HeldSince(r, h, k);
      }
    }
  }

  lemma {:induction false} WaitingMeansAttempt(r: Run, k: nat)
    requires r.Valid() && k <= |r.events|
    ensures r.states[k].presenceAuthenticating <==> exists t: nat :: AttemptSince(r, t, k)
  {
    if k > 0 {
      WaitingMeansAttempt(r, k - 1);
      AuthenticatorsExclude(r, k - 1);
      assert r.Follows(k - 1);
      WaitingStep(r.states[k - 1], r.events[k - 1], r.states[k]);
      forall t: nat
        ensures AttemptSince(r, t, k) <==>
                || (t == k - 1 && StartsAttempt(r.states[k - 1], r.events[k - 1]))
                || (t < k - 1 && AttemptSince(r, t, k - 1) && !EndsAttempt(r.states[k - 1], r.events[k - 1]))
      {
        AttemptSinceStep(r, t, k);
      }
      if StartsAttempt(r.states[k - 1], r.events[k - 1]) {
        assert AttemptSince(r, k - 1, k);
      } else if r.states[k].presenceAuthenticating {
        var t: nat :| AttemptSince(r, t, k - 1);
        assert AttemptSince(r, t, k);
      }
    }
  }

  /** The attempt PAM is running is the one event `t` started. */
  lemma {:induction false} AttemptIsThatOne(r: Run, t: nat, k: nat)
    requires r.Valid() && k <= |r.events| && AttemptSince(r, t, k)
    ensures r.states[t].pam == None
    ensures r.states[k].pam == Some(r.states[t].attempts)
  {
    AuthenticatorsExclude(r, k - 1);
    assert r.Follows(k - 1);
    PamStep(r.states[k - 1], r.events[k - 1], r.states[k]);
    AttemptSinceStep(r, t, k);
    if t < k - 1 {
      AttemptIsThatOne(r, t, k - 1);
      WaitingMeansAttempt(r, k - 1);
    }
  }

  // ---------------------------------------------------------------------
  // The other fields
  // ---------------------------------------------------------------------

  /** Event `j` started something, and nothing before event `k` ended it. */
  ghost predicate Since(r: Run, starts: (State, Event) -> bool, ends: (State, Event) -> bool, j: nat, k: nat)
    requires r.Valid() && k <= |r.events|
  {
    && j < k && starts(r.states[j], r.events[j])
    && forall i | j < i < k :: !ends(r.states[i], r.events[i])
  }

  /** A field that every step sets, clears or leaves is set exactly while something has set it since. */
  lemma {:induction false} SetMeansSince(
    r: Run, field: State -> bool, starts: (State, Event) -> bool, ends: (State, Event) -> bool, k: nat)
    requires r.Valid() && k <= |r.events| && !field(START)
    requires forall i | 0 <= i < |r.events| ::
               field(r.states[i + 1]) <==>
               starts(r.states[i], r.events[i]) || (field(r.states[i]) && !ends(r.states[i], r.events[i]))
    ensures field(r.states[k]) <==> exists j: nat :: Since(r, starts, ends, j, k)
  {
    if k > 0 {
      SetMeansSince(r, field, starts, ends, k - 1);
      var s, e := r.states[k - 1], r.events[k - 1];
      assert field(r.states[(k - 1) + 1]) <==> starts(s, e) || (field(s) && !ends(s, e));
      if starts(s, e) {
        assert Since(r, starts, ends, k - 1, k);
      } else if field(s) && !ends(s, e) {
        var j: nat :| Since(r, starts, ends, j, k - 1);
        assert Since(r, starts, ends, j, k);
      } else if j: nat :| Since(r, starts, ends, j, k) {
        assert j < k - 1 && Since(r, starts, ends, j, k - 1);
      }
    }
  }

  predicate Locks(s: State, e: Event) { e.LockRequested? }

  predicate Unlocks(s: State, e: Event) { e.LockDropped? }

  predicate Secures(s: State, e: Event) { e == SecureChanged(true) }

  predicate ChangesSecurity(s: State, e: Event) { e.SecureChanged? }

  predicate FindsPolicy(s: State, e: Event) { e.PolicyLoaded? }

  predicate LosesPolicy(s: State, e: Event) { e.PolicyGone? }

  predicate SendsPassword(s: State, e: Event) { e == Submit(true) && s.lockRequested && !s.passwordInFlight }

  predicate EndsPassword(s: State, e: Event) { e.PasswordDone? || e == ResetAuthentication(true) }

  predicate StartsPam(s: State, e: Event) { e == TimerFires(true) && s.lockRequested && s.secure && !s.passwordInFlight }

  predicate EndsPam(s: State, e: Event) { e.PamCompleted? || e == PamError(true) }

  lemma LockStep(s: State, e: Event, t: State)
    requires Step(s, e) == Some(t)
    ensures t.lockRequested <==> Locks(s, e) || (s.lockRequested && !Unlocks(s, e))
    ensures t.secure <==> Secures(s, e) || (s.secure && !ChangesSecurity(s, e))
  {
  }

  lemma PolicyStep(s: State, e: Event, t: State)
    requires Step(s, e) == Some(t)
    ensures t.presenceConfigured <==> FindsPolicy(s, e) || (s.presenceConfigured && !LosesPolicy(s, e))
  {
  }

  lemma PasswordStep(s: State, e: Event, t: State)
    requires Step(s, e) == Some(t)
    ensures t.passwordInFlight <==> SendsPassword(s, e) || (s.passwordInFlight && !EndsPassword(s, e))
  {
  }

  lemma PamRunsStep(s: State, e: Event, t: State)
    requires Step(s, e) == Some(t)
    ensures t.pam.Some? <==> StartsPam(s, e) || (s.pam.Some? && !EndsPam(s, e))
  {
  }

  /** The session is locked while the last word on it was to lock it; it is secure, and the policy exists,
      while the last word was so. A password is in flight from a non-empty submission, while the session is
      locked and none is in flight yet, until it is decided or a reset drops it. PAM runs an attempt from
      a completed hold until its result or an error that ends it. */
  lemma FieldsMean(r: Run, k: nat)
    requires r.Valid() && k <= |r.events|
    ensures r.states[k].lockRequested <==> exists j: nat :: Since(r, Locks, Unlocks, j, k)
    ensures r.states[k].secure <==> exists j: nat :: Since(r, Secures, ChangesSecurity, j, k)
    ensures r.states[k].presenceConfigured <==> exists j: nat :: Since(r, FindsPolicy, LosesPolicy, j, k)
    ensures r.states[k].passwordInFlight <==> exists j: nat :: Since(r, SendsPassword, EndsPassword, j, k)
    ensures r.states[k].pam.Some? <==> exists j: nat :: Since(r, StartsPam, EndsPam, j, k)
  {
    LockMeans(r, k);
    PasswordMeans(r, k);
    PamMeans(r, k);
  }

  lemma LockMeans(r: Run, k: nat)
    requires r.Valid() && k <= |r.events|
    ensures r.states[k].lockRequested <==> exists j: nat :: Since(r, Locks, Unlocks, j, k)
    ensures r.states[k].secure <==> exists j: nat :: Since(r, Secures, ChangesSecurity, j, k)
    ensures r.states[k].presenceConfigured <==> exists j: nat :: Since(r, FindsPolicy, LosesPolicy, j, k)
  {
    forall i | 0 <= i < |r.events|
      ensures var s, e, t := r.states[i], r.events[i], r.states[i + 1];
              && (t.lockRequested <==> Locks(s, e) || (s.lockRequested && !Unlocks(s, e)))
              && (t.secure <==> Secures(s, e) || (s.secure && !ChangesSecurity(s, e)))
              && (t.presenceConfigured <==> FindsPolicy(s, e) || (s.presenceConfigured && !LosesPolicy(s, e)))
    {
      assert r.Follows(i);
      LockStep(r.states[i], r.events[i], r.states[i + 1]);
      PolicyStep(r.states[i], r.events[i], r.states[i + 1]);
    }
    SetMeansSince(r, (s: State) => s.lockRequested, Locks, Unlocks, k);
    SetMeansSince(r, (s: State) => s.secure, Secures, ChangesSecurity, k);
    SetMeansSince(r, (s: State) => s.presenceConfigured, FindsPolicy, LosesPolicy, k);
  }

  lemma PasswordMeans(r: Run, k: nat)
    requires r.Valid() && k <= |r.events|
    ensures r.states[k].passwordInFlight <==> exists j: nat :: Since(r, SendsPassword, EndsPassword, j, k)
  {
    forall i | 0 <= i < |r.events|
      ensures var s, e, t := r.states[i], r.events[i], r.states[i + 1];
              t.passwordInFlight <==> SendsPassword(s, e) || (s.passwordInFlight && !EndsPassword(s, e))
    {
      assert r.Follows(i);
      PasswordStep(r.states[i], r.events[i], r.states[i + 1]);
    }
    SetMeansSince(r, (s: State) => s.passwordInFlight, SendsPassword, EndsPassword, k);
  }

  lemma PamMeans(r: Run, k: nat)
    requires r.Valid() && k <= |r.events|
    ensures r.states[k].pam.Some? <==> exists j: nat :: Since(r, StartsPam, EndsPam, j, k)
  {
    forall i | 0 <= i < |r.events|
      ensures var s, e, t := r.states[i], r.events[i], r.states[i + 1];
              t.pam.Some? <==> StartsPam(s, e) || (s.pam.Some? && !EndsPam(s, e))
    {
      assert r.Follows(i);
      PamRunsStep(r.states[i], r.events[i], r.states[i + 1]);
    }
    SetMeansSince(r, (s: State) => s.pam.Some?, StartsPam, EndsPam, k);
  }

  /** A caller is told exactly why a hold is refused: the session is not locked and secure; else something is
      under way already, a hold included; else there is no policy. */
  lemma HoldReplies(s: State)
    ensures ReplyToHold(s) == NotLocked <==> !(s.lockRequested && s.secure)
    ensures ReplyToHold(s) == Busy <==>
            s.lockRequested && s.secure && (s.passwordInFlight || s.presenceAuthenticating || s.pam != None || s.timerRunning)
    ensures ReplyToHold(s) == Holding <==> StartsHold(s, Hold)
  {
  }

  /** Every event can happen at any time, but for the two that need a source: the timer fires only while it
      runs, and PAM reports only on an attempt it runs. */
  lemma WhatCanHappen(s: State, e: Event)
    ensures Step(s, e).None? <==>
            || (e.TimerFires? && !s.timerRunning)
            || ((e.PamCompleted? || e.PamError?) && s.pam.None?)
  {
  }

  // ---------------------------------------------------------------------
  // Main result
  // ---------------------------------------------------------------------

  /** Event `n` of the run deserves an unlock: PAM succeeded for the attempt that event `t` started by
      completing the hold of event `h`, with no release or cancellation during the hold, nothing ending the
      attempt since, and the session locked with no password in flight throughout those three moments. */
  ghost predicate DeservesUnlock(r: Run, n: nat, h: nat, t: nat)
    requires r.Valid() && n < |r.events|
  {
    && r.events[n] == PamCompleted(true)
    && r.states[n].lockRequested && r.states[n].secure && !r.states[n].passwordInFlight
    && t < n && AttemptSince(r, t, n) && r.states[n].pam == r.states[t + 1].pam
    && HeldSince(r, h, t)
  }

  /** Presence unlocks exactly when the run deserves it. */
  lemma UnlocksExactlyWhenDeserved(r: Run, n: nat)
    requires r.Valid() && n < |r.events|
    ensures r.states[n + 1].unlocking <==> exists h: nat, t: nat :: DeservesUnlock(r, n, h, t)
  {
    assert r.Follows(n);
    UnlockStep(r.states[n], r.events[n], r.states[n + 1]);
    WaitingMeansAttempt(r, n);
    if r.states[n + 1].unlocking {
      var t: nat :| AttemptSince(r, t, n);
      AttemptIsThatOne(r, t, n);
      AttemptIsThatOne(r, t, t + 1);
      var h := FiringMeansHeld(r, t);
      assert DeservesUnlock(r, n, h, t);
    }
  }

  lemma FiringMeansHeld(r: Run, t: nat) returns (h: nat)
    requires r.Valid() && t < |r.events| && r.events[t].TimerFires?
    ensures HeldSince(r, h, t)
  {
    assert r.Follows(t);
    TimerMeansHeld(r, t);
    h :| HeldSince(r, h, t);
  }

  /** And one hold unlocks at most once. */
  lemma OneUnlockPerHold(r: Run, m: nat, n: nat, h: nat, t: nat, u: nat)
    requires r.Valid() && m < |r.events| && n < |r.events|
    requires DeservesUnlock(r, m, h, t) && DeservesUnlock(r, n, h, u)
    ensures t == u && m == n
  {
    assert EndsHold(r.states[t], r.events[t]) && EndsHold(r.states[u], r.events[u]);
    assert EndsAttempt(r.states[m], r.events[m]) && EndsAttempt(r.states[n], r.events[n]);
  }

  /** The gesture works: whenever a hold is accepted, letting the timer finish and PAM succeed unlocks. */
  lemma AcceptedHoldCanUnlock(r: Run) returns (done: Run)
    requires r.Valid() && AcceptsHold(r.Last())
    ensures done.Valid() && done.events == r.events + [Hold, TimerFires(true), PamCompleted(true)]
    ensures done.Last().unlocking
  {
    ExtendedIsValid(r, Hold);
    var held := r.Extended(Hold);
    ExtendedIsValid(held, TimerFires(true));
    var fired := held.Extended(TimerFires(true));
    ExtendedIsValid(fired, PamCompleted(true));
    done := fired.Extended(PamCompleted(true));
  }

  /** And a hold is accepted in the plainest run there is: the session is locked, the lock is secure, the
      policy exists. */
  lemma FreshLockAcceptsHold() returns (r: Run)
    ensures r.Valid() && r.events == [LockRequested, SecureChanged(true), PolicyLoaded] && AcceptsHold(r.Last())
  {
    r := Run([], [START]);
    ExtendedIsValid(r, LockRequested);
    r := r.Extended(LockRequested);
    ExtendedIsValid(r, SecureChanged(true));
    r := r.Extended(SecureChanged(true));
    ExtendedIsValid(r, PolicyLoaded);
    r := r.Extended(PolicyLoaded);
  }
}
