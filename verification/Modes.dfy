/**
 Operational modes: Standard, High-Risk, and time-bounded Emergency Recovery.

 The mode machine drives the session manager of module `Sessions`, but keeps its own expiry and
 its own rate-limit counter. Every clock reading a call makes is a separate argument, because the
 program reads the clock again for each field it sets or tests. The session manager is a public
 field, so callers can also use it directly.
 */
module Modes {
  import opened Base
  import opened Sessions

  datatype Mode = Standard | HighRisk | EmergencyRecovery

  datatype HighRiskActivation = Manual | Trigger

  const MAX_ACTIVATIONS := 3

  const DAY := 86400 * SEC

  const DEFAULT_DURATION := 900 * SEC

  datatype Machine = Machine(mode: Mode, activation: Option<HighRiskActivation>, expiry: Option<nat>,
                             duration: nat, activations: nat, lastReset: nat, book: Book)

  datatype ModeError = RecoveryActive | NotInHighRisk | RateLimitExceeded | SessionError(why: ActivationError)

  function Clamp(d: nat): nat { if d < MIN_SESSION then MIN_SESSION else if d > MAX_SESSION then MAX_SESSION else d }

  /** The readings of one activation, in the order they are taken. */
  datatype Readings = Readings(check: nat, reset: nat, session: nat, expiry: nat)

  predicate ResetDue(m: Machine, c: Readings) { Since(c.check, m.lastReset) >= DAY }

  function WithReset(m: Machine, c: Readings): Machine {
    if ResetDue(m, c) then m.(activations := 0, lastReset := c.reset) else m
  }

  function NewMachine(now: nat): Machine { Machine(Standard, None, None, DEFAULT_DURATION, 0, now, EMPTY) }

  /** The manager's reading comes first, the machine's own afterwards. */
  function CurrentMode(m: Machine, t1: nat, t2: nat, wall: nat): (Machine, Mode) {
    if !m.mode.EmergencyRecovery? then (m, m.mode)
    else
      var (book, viaManager) := Checked(m.book, t1, wall);
      var legacy := m.expiry.Some? && t2 >= m.expiry.value;
      var m' := m.(book := book);
      if viaManager || legacy then (m'.(mode := HighRisk, expiry := None), HighRisk) else (m', EmergencyRecovery)
  }

  function ActivateHighRisk(m: Machine, a: HighRiskActivation): (Machine, Result<(), ModeError>) {
    if m.mode.EmergencyRecovery? then (m, Err(RecoveryActive))
    else (m.(mode := HighRisk, activation := Some(a)), Ok(()))
  }

  function DeactivateHighRisk(m: Machine): (Machine, Result<(), ModeError>) {
    if !m.mode.HighRisk? then (m, Err(NotInHighRisk)) else (m.(mode := Standard, activation := None), Ok(()))
  }

  function ActivateEmergency(m: Machine, auth: Auth, duration: nat, c: Readings): (Machine, Result<(), ModeError>) {
    if !m.mode.HighRisk? then (m, Err(NotInHighRisk))
    else
      var m1 := WithReset(m, c);
      if m1.activations >= MAX_ACTIVATIONS then (m1, Err(RateLimitExceeded))
      else
        var (book, r) := Activated(m1.book, auth, Clamp(duration), c.session);
        match r
        case Err(e) => (m1.(book := book), Err(SessionError(e)))
        case Ok(_) =>
          (m1.(book := book, activations := m1.activations + 1, expiry := Some(c.expiry + Clamp(duration)),
               mode := EmergencyRecovery), Ok(()))
  }

  // ---- The manager object -----------------------------------------------------

  class ModeManager {
    var mode: Mode
    var activation: Option<HighRiskActivation>
    var expiry: Option<nat>
    var duration: nat
    var activations: nat
    var lastReset: nat
    const sessions: EmergencyRecoveryManager

    function View(): Machine
      reads this, sessions
    {
      Machine(mode, activation, expiry, duration, activations, lastReset, sessions.View())
    }

    constructor (now: nat)
      ensures View() == NewMachine(now) && fresh(sessions)
    {
      mode, activation, expiry, duration := Standard, None, None, DEFAULT_DURATION;
      activations, lastReset := 0, now;
      sessions := new EmergencyRecoveryManager();
    }

    method GetCurrentMode(t1: nat, t2: nat, wall: nat) returns (r: Mode)
      modifies this, sessions
      ensures (View(), r) == CurrentMode(old(View()), t1, t2, wall)
    {
      if mode == EmergencyRecovery {
        var viaManager := sessions.CheckExpiry(t1, wall);
        var legacy := expiry.Some? && t2 >= expiry.value;
        if viaManager || legacy {
          mode := HighRisk;
          expiry := None;
        }
      }
      return mode;
    }

    method EnterHighRisk(a: HighRiskActivation) returns (r: Result<(), ModeError>)
      modifies this
      ensures (View(), r) == ActivateHighRisk(old(View()), a)
    {
      if mode == EmergencyRecovery { return Err(RecoveryActive); }
      mode := HighRisk;
      activation := Some(a);
      return Ok(());
    }

    method LeaveHighRisk() returns (r: Result<(), ModeError>)
      modifies this
      ensures (View(), r) == DeactivateHighRisk(old(View()))
    {
      if mode != HighRisk { return Err(NotInHighRisk); }
      mode := Standard;
      activation := None;
      return Ok(());
    }

    method ResetCounterIfNeeded(check: nat, reset: nat)
      modifies this
      ensures forall c: Readings | c.check == check && c.reset == reset :: View() == WithReset(old(View()), c)
    {
      if Since(check, lastReset) >= DAY {
        activations := 0;
        lastReset := reset;
      }
    }

    method EnterEmergencyRecovery(auth: Auth, d: nat, c: Readings) returns (r: Result<(), ModeError>)
      modifies this, sessions
      ensures (View(), r) == ActivateEmergency(old(View()), auth, d, c)
    {
      if mode != HighRisk { return Err(NotInHighRisk); }
      ResetCounterIfNeeded(c.check, c.reset);
      if activations >= MAX_ACTIVATIONS { return Err(RateLimitExceeded); }
      var clamped := Clamp(d);
      var session := sessions.Activate(auth, clamped, c.session);
      if session.Err? { return Err(SessionError(session.error)); }
      activations := activations + 1;
      expiry := Some(c.expiry + clamped);
      mode := EmergencyRecovery;
      return Ok(());
    }

    method SetEmergencyDuration(d: nat)
      modifies this
      ensures View() == old(View()).(duration := Clamp(d))
    {
      duration := Clamp(d);
    }
  }

  // ---- Calls and timed runs ---------------------------------------------------

  datatype Event =
    | Poll(t1: nat, t2: nat, wall: nat)
    | GoHighRisk(kind: HighRiskActivation)
    | GoStandard
    | Emergency(auth: Auth, requested: nat, c: Readings)
    | EmergencyDefault(c: Readings)
    | SetDuration(d: nat)
    | Direct(call: Call)              // a call on the public session manager

  function Next(m: Machine, e: Event): Machine {
    match e
    case Poll(t1, t2, wall) => CurrentMode(m, t1, t2, wall).0
    case GoHighRisk(kind) => ActivateHighRisk(m, kind).0
    case GoStandard => DeactivateHighRisk(m).0
    case Emergency(auth, requested, c) => ActivateEmergency(m, auth, requested, c).0
    case EmergencyDefault(c) => ActivateEmergency(m, PasswordPlusFido2, m.duration, c).0
    case SetDuration(d) => m.(duration := Clamp(d))
    case Direct(call) => m.(book := Sessions.Step(m.book, call))
  }

  /** An activation that succeeded: when its session and its expiry were stamped, and in which window it fell. */
  datatype Grant = Grant(at: nat, stamped: nat, window: int)

  /** The machine, the last clock reading, the counter resets (creation first) and the grants so far. */
  datatype World = World(m: Machine, clock: nat, resets: seq<nat>, grants: seq<Grant>)

  predicate IsEmergency(e: Event) { e.Emergency? || e.EmergencyDefault? }

  predicate Granted(m: Machine, e: Event) {
    IsEmergency(e) && m.mode.HighRisk? && Next(m, e).mode.EmergencyRecovery?
  }

  function Start(now: nat): World { World(NewMachine(now), now, [now], []) }

  function Observed(w: World, e: Event): World {
    var m' := Next(w.m, e);
    match e
    case Poll(t1, t2, _) => w.(m := m', clock := t2)
    case Emergency(_, _, c) => ObservedEmergency(w, e, c)
    case EmergencyDefault(c) => ObservedEmergency(w, e, c)
    case Direct(Activate(_, _, now)) => w.(m := m', clock := now)
    case Direct(CheckExpiry(now, _)) => w.(m := m', clock := now)
    case Direct(Deactivate(now, _)) => w.(m := m', clock := now)
    case _ => w.(m := m')
  }

  function ObservedEmergency(w: World, e: Event, c: Readings): World {
    var resets := if w.m.mode.HighRisk? && ResetDue(w.m, c) then w.resets + [c.reset] else w.resets;
    var grants := if Granted(w.m, e) then w.grants + [Grant(c.session, c.expiry, |resets| - 1)] else w.grants;
    World(Next(w.m, e), c.expiry, resets, grants)
  }

  /** The clock never goes back, within a call or between calls. */
  predicate Timely(w: World, e: Event) {
    match e
    case Poll(t1, t2, _) => w.clock <= t1 <= t2
    case Emergency(_, _, c) => w.clock <= c.check <= c.reset <= c.session <= c.expiry
    case EmergencyDefault(c) => w.clock <= c.check <= c.reset <= c.session <= c.expiry
    case Direct(Activate(_, _, now)) => w.clock <= now
    case Direct(CheckExpiry(now, _)) => w.clock <= now
    case Direct(Deactivate(now, _)) => w.clock <= now
    case _ => true
  }

  function Run(start: nat, es: seq<Event>): World {
    if es == [] then Start(start) else Observed(Run(start, es[..|es| - 1]), es[|es| - 1])
  }

  ghost predicate Timed(start: nat, es: seq<Event>) {
    es == [] || (Timed(start, es[..|es| - 1]) && Timely(Run(start, es[..|es| - 1]), es[|es| - 1]))
  }

  // ---- Mode edges -------------------------------------------------------------

  /** Recovery is entered only from, and left only to, High-Risk; the activation kind is set exactly outside Standard. */
  ghost predicate KindMatches(m: Machine) { m.activation.Some? <==> !m.mode.Standard? }

  lemma ModeEdges(m: Machine, e: Event)
    requires KindMatches(m)
    ensures KindMatches(Next(m, e))
    ensures !m.mode.EmergencyRecovery? && Next(m, e).mode.EmergencyRecovery? ==> m.mode.HighRisk? && IsEmergency(e)
    ensures m.mode.EmergencyRecovery? && !Next(m, e).mode.EmergencyRecovery? ==> Next(m, e).mode.HighRisk? && e.Poll?
    ensures Next(m, e).activation != m.activation ==>
              || (e.GoHighRisk? && Next(m, e).activation == Some(e.kind))
              || (e.GoStandard? && Next(m, e).mode.Standard?)
  {
  }

  lemma {:induction false} KindAlways(start: nat, es: seq<Event>)
    ensures KindMatches(Run(start, es).m)
    decreases |es|
  {
    if es != [] {
      KindAlways(start, es[..|es| - 1]);
      ModeEdges(Run(start, es[..|es| - 1]).m, es[|es| - 1]);
    }
  }

  // ---- Rate limit -------------------------------------------------------------

  ghost predicate Spaced(resets: seq<nat>) {
    forall i | 0 < i < |resets| :: resets[i] - resets[i - 1] >= DAY
  }

  ghost predicate InvRate(w: World) {
    && w.resets != [] && Spaced(w.resets)
    && w.m.lastReset == w.resets[|w.resets| - 1] && w.m.lastReset <= w.clock
    && w.m.activations <= MAX_ACTIVATIONS && w.m.activations <= |w.grants|
    && (forall k | 0 <= k < |w.grants| ::
          var g := w.grants[k];
          && 0 <= g.window < |w.resets| && w.resets[g.window] <= g.at <= w.clock
          && (g.window + 1 < |w.resets| ==> g.at <= w.resets[g.window + 1])
          && (g.window == |w.resets| - 1 <==> k >= |w.grants| - w.m.activations))
    && (forall k | 0 <= k < |w.grants| - 3 :: w.grants[k].window < w.grants[k + 3].window)
  }

  /** A call that opens nothing leaves the rate bookkeeping alone. */
  lemma RateOther(w: World, e: Event)
    requires InvRate(w) && Timely(w, e) && !IsEmergency(e)
    ensures InvRate(Observed(w, e))
  {
    assert Next(w.m, e).activations == w.m.activations && Next(w.m, e).lastReset == w.m.lastReset;
  }

  /** Only the counter and the reset time matter to the rate bookkeeping. */
  lemma EmergencyCounts(m: Machine, e: Event, c: Readings)
    requires e == EmergencyDefault(c) || (e.Emergency? && e.c == c)
    ensures !m.mode.HighRisk? ==> Next(m, e) == m && !Granted(m, e)
    ensures m.mode.HighRisk? ==>
              var m1 := WithReset(m, c);
              && Next(m, e).lastReset == m1.lastReset
              && Next(m, e).activations == m1.activations + (if Granted(m, e) then 1 else 0)
              && (Granted(m, e) ==> m1.activations < MAX_ACTIVATIONS)
  {
  }

  lemma RateReset(w: World, c: Readings)
    requires InvRate(w) && w.clock <= c.check <= c.reset && ResetDue(w.m, c)
    ensures InvRate(World(WithReset(w.m, c), c.reset, w.resets + [c.reset], w.grants))
  {
    var resets := w.resets + [c.reset];
    assert Spaced(resets);
    forall k | 0 <= k < |w.grants| ensures w.grants[k].window + 1 < |resets| ==> w.grants[k].at <= resets[w.grants[k].window + 1] {
      if w.grants[k].window + 1 < |w.resets| { assert resets[w.grants[k].window + 1] == w.resets[w.grants[k].window + 1]; }
    }
  }

  lemma RateGrant(w: World, m': Machine, at: nat, stamped: nat)
    requires InvRate(w) && w.m.activations < MAX_ACTIVATIONS && w.clock <= at <= stamped
    requires m'.lastReset == w.m.lastReset && m'.activations == w.m.activations + 1
    ensures InvRate(World(m', stamped, w.resets, w.grants + [Grant(at, stamped, |w.resets| - 1)]))
  {
    var grants := w.grants + [Grant(at, stamped, |w.resets| - 1)];
    var n := |w.grants|;
    if n >= 3 { assert w.grants[n - 3].window < |w.resets| - 1; }
    forall k | 0 <= k < |grants| - 3 ensures grants[k].window < grants[k + 3].window {
      if k + 3 < n { assert w.grants[k].window < w.grants[k + 3].window; }
    }
  }

  lemma RateLater(w: World, m': Machine, clock: nat)
    requires InvRate(w) && w.clock <= clock
    requires m'.lastReset == w.m.lastReset && m'.activations == w.m.activations
    ensures InvRate(World(m', clock, w.resets, w.grants))
  {
  }

  /** The state between the counter check and the grant. */
  function Rewound(w: World, c: Readings): World {
    if ResetDue(w.m, c) then World(WithReset(w.m, c), c.reset, w.resets + [c.reset], w.grants) else w
  }

  lemma RateRewound(w: World, c: Readings)
    requires InvRate(w) && w.clock <= c.check <= c.reset
    ensures InvRate(Rewound(w, c)) && Rewound(w, c).m == WithReset(w.m, c) && Rewound(w, c).clock <= c.reset
  {
    hide InvRate;
    if ResetDue(w.m, c) { RateReset(w, c); }
  }

  lemma RateEmergency(w: World, e: Event, c: Readings)
    requires InvRate(w) && w.clock <= c.check <= c.reset <= c.session <= c.expiry
    requires e == EmergencyDefault(c) || (e.Emergency? && e.c == c)
    ensures InvRate(ObservedEmergency(w, e, c))
  {
    hide InvRate, Next, Granted, WithReset, ResetDue;
    EmergencyCounts(w.m, e, c);
    var m' := Next(w.m, e);
    if !w.m.mode.HighRisk? {
      RateLater(w, m', c.expiry);
    } else {
      RateRewound(w, c);
      if Granted(w.m, e) {
        RateGrant(Rewound(w, c), m', c.session, c.expiry);
      } else {
        RateLater(Rewound(w, c), m', c.expiry);
      }
    }
  }

  lemma {:induction false} RateAlways(start: nat, es: seq<Event>)
    requires Timed(start, es)
    ensures InvRate(Run(start, es))
    decreases |es|
  {
    hide InvRate, Next, ObservedEmergency;
    if es == [] {
      RateStart(start);
    } else {
      var w, e := Run(start, es[..|es| - 1]), es[|es| - 1];
      RateAlways(start, es[..|es| - 1]);
      if e.Emergency? || e.EmergencyDefault? { RateEmergency(w, e, e.c); } else { RateOther(w, e); }
    }
  }

  lemma RateStart(start: nat)
    ensures InvRate(Start(start))
  {
  }

  lemma {:induction false} SpacedApart(resets: seq<nat>, i: nat, j: nat)
    requires Spaced(resets) && i < j < |resets|
    ensures resets[j] - resets[i] >= DAY
    decreases j - i
  {
    assert resets[j] - resets[j - 1] >= DAY;
    if i < j - 1 { SpacedApart(resets, i, j - 1); }
  }

  /** At most three activations fall between two counter resets, and resets are at least a day apart. */
  lemma ThreePerWindow(start: nat, es: seq<Event>, k: nat)
    requires Timed(start, es) && k + 3 < |Run(start, es).grants|
    ensures Run(start, es).grants[k].window < Run(start, es).grants[k + 3].window
    ensures Spaced(Run(start, es).resets)
  {
    RateAlways(start, es);
  }

  /** Any seven successive activations span at least twenty-four hours, in every timed run. */
  lemma SevenSpanADay(start: nat, es: seq<Event>, k: nat)
    requires Timed(start, es) && k + 6 < |Run(start, es).grants|
    ensures Run(start, es).grants[k + 6].at - Run(start, es).grants[k].at >= 24 * 3600 * 1_000_000_000
  {
    hide Run, Timed, InvRate;
    RateAlways(start, es);
    SevenIn(Run(start, es), k);
  }

  lemma SevenIn(w: World, k: nat)
    requires InvRate(w) && k + 6 < |w.grants|
    ensures w.grants[k + 6].at - w.grants[k].at >= DAY
  {
    var a, b, c := w.grants[k], w.grants[k + 3], w.grants[k + 6];
    assert a.window < b.window < c.window;
    SpacedApart(w.resets, a.window + 1, c.window);
  }

  /** Ready for another activation at time `t`. */
  predicate Ready(w: World, t: nat) {
    w.m.mode.HighRisk? && w.m.book.current.None? && w.m.lastReset <= w.clock <= t
  }

  /** One shortest recovery: activate at `t`, poll a minute later. */
  function Round(t: nat): seq<Event> {
    [Emergency(PasswordPlusFido2, MIN_SESSION, Readings(t, t, t, t)), Poll(t + MIN_SESSION, t + MIN_SESSION, 0)]
  }

  lemma RunSnoc(start: nat, es: seq<Event>, e: Event)
    requires Timed(start, es) && Timely(Run(start, es), e)
    ensures Timed(start, es + [e]) && Run(start, es + [e]) == Observed(Run(start, es), e)
  {
    assert (es + [e])[..|es|] == es;
  }

  lemma RoundGrants(start: nat, es: seq<Event>, t: nat)
    requires Timed(start, es) && Ready(Run(start, es), t)
    requires t - Run(start, es).m.lastReset < DAY ==> Run(start, es).m.activations < MAX_ACTIVATIONS
    ensures var w, w' := Run(start, es), Run(start, es + Round(t));
            && Timed(start, es + Round(t)) && Ready(w', t + MIN_SESSION)
            && |w'.grants| == |w.grants| + 1 && w.grants <= w'.grants && w'.grants[|w.grants|].at == t
            && w'.m.activations == (if t - w.m.lastReset >= DAY then 1 else w.m.activations + 1)
            && w'.m.lastReset == (if t - w.m.lastReset >= DAY then t else w.m.lastReset)
  {
    RunSnoc(start, es, Round(t)[0]);
    var mid := es + [Round(t)[0]];
    RunSnoc(start, mid, Round(t)[1]);
    assert mid + [Round(t)[1]] == es + Round(t);
  }

  /** An emergency call is granted exactly when no session is open and the third activation before it is out of the window. */
  lemma GrantedExactly(start: nat, es: seq<Event>, e: Event)
    requires Timed(start, es) && IsEmergency(e)
    ensures var w := Run(start, es);
            var n := |w.grants|;
            Granted(w.m, e) <==>
              && w.m.mode.HighRisk? && w.m.book.current.None?
              && (n < 3 || ResetDue(w.m, e.c) || w.grants[n - 3].window < |w.resets| - 1)
  {
    hide Run, Timed;
    RateAlways(start, es);
    GrantedIn(Run(start, es), e);
  }

  lemma GrantedIn(w: World, e: Event)
    requires InvRate(w) && IsEmergency(e)
    ensures var n := |w.grants|;
            Granted(w.m, e) <==>
              && w.m.mode.HighRisk? && w.m.book.current.None?
              && (n < 3 || ResetDue(w.m, e.c) || w.grants[n - 3].window < |w.resets| - 1)
  {
    GrantedByCount(w.m, e);
    hide Granted, Next, Spaced, ResetDue;
    var n := |w.grants|;
    if n >= 3 {
      assert w.grants[n - 3].window == |w.resets| - 1 <==> n - 3 >= n - w.m.activations;
      assert 0 <= w.grants[n - 3].window < |w.resets|;
    }
  }

  lemma GrantedByCount(m: Machine, e: Event)
    requires IsEmergency(e)
    ensures Granted(m, e) <==>
              m.mode.HighRisk? && m.book.current.None? && (ResetDue(m, e.c) || m.activations < MAX_ACTIVATIONS)
  {
  }

  /** What the documentation promises: a fourth activation comes at least a day after the first of the last three. */
  ghost predicate DayLimit(w: World) {
    forall k | 0 <= k < |w.grants| - 3 :: w.grants[k + 3].at - w.grants[k].at >= 24 * 3600 * 1_000_000_000
  }

  /** The call opens a session within a day of the third activation before it. */
  predicate Breaks(w: World, e: Event) {
    var n := |w.grants|;
    && IsEmergency(e) && w.m.mode.HighRisk? && w.m.book.current.None?
    && n >= 3 && (ResetDue(w.m, e.c) || w.grants[n - 3].window < |w.resets| - 1)
    && e.c.session - w.grants[n - 3].at < DAY
  }

  lemma DayLimitAppend(w: World, w': World, at: nat)
    requires |w'.grants| == |w.grants| + 1 && w'.grants[..|w.grants|] == w.grants && w'.grants[|w.grants|].at == at
    ensures DayLimit(w') <==> DayLimit(w) && (|w.grants| >= 3 ==> at - w.grants[|w.grants| - 3].at >= DAY)
  {
    var n := |w.grants|;
    assert forall k | 0 <= k < n :: w'.grants[k] == w'.grants[..n][k];
    if DayLimit(w') {
      forall k | 0 <= k < n - 3 ensures w.grants[k + 3].at - w.grants[k].at >= DAY {
        assert w'.grants[k + 3].at - w'.grants[k].at >= DAY;
      }
      if n >= 3 { assert w'.grants[(n - 3) + 3].at - w'.grants[n - 3].at >= DAY; }
    }
  }

  lemma GrantsObserved(w: World, e: Event)
    ensures Granted(w.m, e) ==>
              |Observed(w, e).grants| == |w.grants| + 1
              && Observed(w, e).grants[..|w.grants|] == w.grants && Observed(w, e).grants[|w.grants|].at == e.c.session
    ensures !Granted(w.m, e) ==> Observed(w, e).grants == w.grants
  {
    hide Next;
  }

  /** No call of the run opens a session within a day of the third activation before it. */
  ghost predicate Unbroken(start: nat, es: seq<Event>) {
    forall i | 0 <= i < |es| :: !Breaks(Run(start, es[..i]), es[i])
  }

  lemma UnbrokenSnoc(start: nat, front: seq<Event>, e: Event)
    ensures Unbroken(start, front + [e]) <==> Unbroken(start, front) && !Breaks(Run(start, front), e)
  {
    hide Run, Breaks;
    var es := front + [e];
    assert es[..|front|] == front && es[|front|] == e;
    assert forall i | 0 <= i < |front| :: es[..i] == front[..i] && es[i] == front[i];
  }

  /** The day limit holds over a run exactly when no call of it breaks it. */
  lemma {:induction false} DayLimitExactly(start: nat, es: seq<Event>)
    requires Timed(start, es)
    ensures DayLimit(Run(start, es)) <==> Unbroken(start, es)
    decreases |es|
  {
    if es != [] {
      var front, e := es[..|es| - 1], es[|es| - 1];
      assert Run(start, es) == Observed(Run(start, front), e) && Timed(start, front);
      hide Run, Timed, Observed, Breaks, DayLimit, Unbroken;
      DayLimitExactly(start, front);
      DayLimitStep(start, front, e);
      assert es == front + [e];
      UnbrokenSnoc(start, front, e);
    }
  }

  lemma DayLimitStep(start: nat, es: seq<Event>, e: Event)
    requires Timed(start, es)
    ensures DayLimit(Observed(Run(start, es), e)) <==> DayLimit(Run(start, es)) && !Breaks(Run(start, es), e)
  {
    hide Run, Timed, Observed, Next, DayLimit, ResetDue;
    var w := Run(start, es);
    if IsEmergency(e) { GrantedExactly(start, es, e); }
    GrantsObserved(w, e);
    if Granted(w.m, e) {
      DayLimitAppend(w, Observed(w, e), e.c.session);
    } else {
      SameGrants(w, Observed(w, e));
    }
  }

  lemma SameGrants(w: World, w': World)
    requires w.grants == w'.grants
    ensures DayLimit(w) <==> DayLimit(w')
  {
  }

  /** The limit is per window, not sliding: six activations can fall within five minutes. */
  lemma SixWithinMinutes(start: nat)
    ensures exists es :: Timed(start, es) && |Run(start, es).grants| == 6
                         && Run(start, es).grants[5].at - Run(start, es).grants[0].at == 300 * 1_000_000_000
  {
    hide Run, Timed, Ready, Round;
    var t := start + DAY - 180 * SEC;
    var e0 := FirstEvent(start, t);
    RoundGrants(start, e0, t);
    var e1 := e0 + Round(t);
    RoundGrants(start, e1, t + 60 * SEC);
    var e2 := e1 + Round(t + 60 * SEC);
    RoundGrants(start, e2, t + 120 * SEC);
    var e3 := e2 + Round(t + 120 * SEC);
    RoundGrants(start, e3, t + 180 * SEC);
    var e4 := e3 + Round(t + 180 * SEC);
    RoundGrants(start, e4, t + 240 * SEC);
    var e5 := e4 + Round(t + 240 * SEC);
    RoundGrants(start, e5, t + 300 * SEC);
    var e6 := e5 + Round(t + 300 * SEC);
    assert |Run(start, e6).grants| == 6 && Run(start, e6).grants[0] == Run(start, e1).grants[0];
  }

  lemma FirstEvent(start: nat, t: nat) returns (es: seq<Event>)
    requires start <= t
    ensures Timed(start, es) && Ready(Run(start, es), t) && Run(start, es).grants == []
    ensures Run(start, es).m.lastReset == start && Run(start, es).m.activations == 0 && Run(start, es).clock == start
  {
    RunSnoc(start, [], GoHighRisk(Manual));
    es := [] + [GoHighRisk(Manual)];
  }

  // ---- The coupled machines ---------------------------------------------------

  /** Recovery mode and an open session go together, and the mode's expiry is no earlier than the session's. */
  ghost predicate Coupled(m: Machine) {
    && (m.mode.EmergencyRecovery? <==> m.book.current.Some?)
    && (m.mode.EmergencyRecovery? <==> m.expiry.Some?)
    && (m.book.current.Some? ==> m.book.current.value.active && m.book.current.value.expiresAt <= m.expiry.value)
  }

  /** Can be decided before the call from the machine and the readings it will use. */
  predicate Harmless(m: Machine, e: Event) {
    match e
    case Poll(t1, t2, _) =>
      m.mode.EmergencyRecovery? && m.book.current.Some? && m.expiry.Some? ==>
        t1 >= m.book.current.value.expiresAt || t2 < m.expiry.value
    case Direct(Activate(_, duration, _)) => m.book.current.Some? || duration < MIN_SESSION || duration > MAX_SESSION
    case Direct(CheckExpiry(now, _)) => m.book.current.Some? ==> now < m.book.current.value.expiresAt
    case Direct(Deactivate(_, _)) => m.book.current.None?
    case _ => true
  }

  /**
   From a coupled state a call keeps the machines coupled exactly when it is harmless: a poll must
   not read the clock before the session's end for the manager and after the mode's end for
   itself, and sessions must not be opened or closed behind the machine's back.
   */
  lemma CouplingExact(w: World, e: Event)
    requires Coupled(w.m) && Timely(w, e)
    ensures Coupled(Next(w.m, e)) <==> Harmless(w.m, e)
  {
  }

  /** The machines are coupled before the run and after each of its calls. */
  ghost predicate CoupledThroughout(start: nat, es: seq<Event>) {
    forall k | 0 <= k <= |es| :: Coupled(Run(start, es[..k]).m)
  }

  ghost predicate HarmlessThroughout(start: nat, es: seq<Event>) {
    forall i | 0 <= i < |es| :: Harmless(Run(start, es[..i]).m, es[i])
  }

  lemma CoupledSnoc(start: nat, front: seq<Event>, e: Event)
    ensures CoupledThroughout(start, front + [e]) <==>
              CoupledThroughout(start, front) && Coupled(Run(start, front + [e]).m)
    ensures CoupledThroughout(start, front) ==> Coupled(Run(start, front).m)
  {
    hide Run, Coupled;
    var es := front + [e];
    assert front[..|front|] == front && es[..|es|] == es;
    assert forall k | 0 <= k <= |front| :: es[..k] == front[..k];
  }

  lemma HarmlessSnoc(start: nat, front: seq<Event>, e: Event)
    ensures HarmlessThroughout(start, front + [e]) <==>
              HarmlessThroughout(start, front) && Harmless(Run(start, front).m, e)
  {
    hide Run, Harmless;
    var es := front + [e];
    assert es[..|front|] == front && es[|front|] == e;
    assert forall i | 0 <= i < |front| :: es[..i] == front[..i] && es[i] == front[i];
  }

  lemma LastCall(start: nat, es: seq<Event>)
    requires es != [] && Timed(start, es)
    ensures es == es[..|es| - 1] + [es[|es| - 1]]
    ensures Timed(start, es[..|es| - 1]) && Timely(Run(start, es[..|es| - 1]), es[|es| - 1])
    ensures Run(start, es).m == Next(Run(start, es[..|es| - 1]).m, es[|es| - 1])
  {
    hide Next, Observed, Timely;
    ObservedMachine(Run(start, es[..|es| - 1]), es[|es| - 1]);
  }

  lemma ObservedMachine(w: World, e: Event)
    ensures Observed(w, e).m == Next(w.m, e)
  {
    hide Next;
  }

  /** Over every timed run the machines are coupled throughout exactly when every call is harmless where it is made. */
  lemma {:induction false} CoupledAlways(start: nat, es: seq<Event>)
    requires Timed(start, es)
    ensures CoupledThroughout(start, es) <==> HarmlessThroughout(start, es)
    decreases |es|
  {
    if es == [] {
      StartsCoupled(start);
    } else {
      var front, e := es[..|es| - 1], es[|es| - 1];
      LastCall(start, es);
      hide Run, Timed, Timely, Next, Coupled, Harmless, CoupledThroughout, HarmlessThroughout;
      CoupledAlways(start, front);
      CoupledSnoc(start, front, e);
      HarmlessSnoc(start, front, e);
      if CoupledThroughout(start, front) { CouplingExact(Run(start, front), e); }
    }
  }

  lemma StartsCoupled(start: nat)
    ensures Coupled(NewMachine(start))
  {
  }

  /** Polls read one clock value, and sessions are opened and closed by the machine alone. */
  predicate OneReading(e: Event) {
    && (e.Poll? ==> e.t1 == e.t2)
    && (e.Direct? ==> e.call.RecordAction?)
  }

  lemma SingleReadingHarmless(w: World, e: Event)
    requires Coupled(w.m) && OneReading(e)
    ensures Harmless(w.m, e)
  {
  }

  /** In a coupled state an activation is never refused by the session manager. */
  lemma NoSessionError(m: Machine, auth: Auth, requested: nat, c: Readings)
    ensures ActivateEmergency(m, auth, requested, c).1.Err? && ActivateEmergency(m, auth, requested, c).1.error.SessionError? <==>
              m.mode.HighRisk? && WithReset(m, c).activations < MAX_ACTIVATIONS && m.book.current.Some?
    ensures Coupled(m) ==>
              (ActivateEmergency(m, auth, requested, c).1.Ok? <==>
               m.mode.HighRisk? && WithReset(m, c).activations < MAX_ACTIVATIONS)
  {
  }

  /** A granted session lasts what was asked, moved to the nearer end of one to sixty minutes if outside. */
  lemma GrantOpensSession(m: Machine, auth: Auth, requested: nat, c: Readings)
    requires ActivateEmergency(m, auth, requested, c).1.Ok?
    ensures var m' := ActivateEmergency(m, auth, requested, c).0;
            && m'.book.current.Some? && m'.expiry.Some?
            && var s := m'.book.current.value;
               && s.auth == auth && s.actions == [] && s.activatedAt == c.session && s.id == m.book.sessionCounter + 1
               && 60_000_000_000 <= s.duration <= 3_600_000_000_000
               && (s.duration > requested ==> s.duration == 60_000_000_000)
               && (s.duration < requested ==> s.duration == 3_600_000_000_000)
               && s.expiresAt == c.session + s.duration
               && m'.expiry.value == c.expiry + s.duration
  {
  }

  /** The two expiries agree. */
  ghost predicate Matched(m: Machine) {
    m.book.current.Some? && m.expiry.Some? ==> m.book.current.value.expiresAt == m.expiry.value
  }

  predicate OneStamp(e: Event) { IsEmergency(e) ==> e.c.session == e.c.expiry }

  lemma MatchedStep(w: World, e: Event)
    requires Coupled(w.m) && Matched(w.m) && Timely(w, e) && Harmless(w.m, e) && OneStamp(e)
    ensures Matched(Next(w.m, e))
  {
  }

  lemma {:induction false} ExpiriesMatch(start: nat, es: seq<Event>)
    requires Timed(start, es) && HarmlessThroughout(start, es) && forall i | 0 <= i < |es| :: OneStamp(es[i])
    ensures Matched(Run(start, es).m)
    decreases |es|
  {
    if es == [] {
      StartsMatched(start);
    } else {
      var front, e := es[..|es| - 1], es[|es| - 1];
      LastCall(start, es);
      hide Run, Timed, Timely, Next, Coupled, Matched, Harmless, OneStamp, CoupledThroughout, HarmlessThroughout;
      HarmlessSnoc(start, front, e);
      CoupledAlways(start, front);
      CoupledSnoc(start, front, e);
      ExpiriesMatch(start, front);
      MatchedStep(Run(start, front), e);
    }
  }

  lemma {:induction false} SingleReadingAlways(start: nat, es: seq<Event>)
    requires Timed(start, es) && forall i | 0 <= i < |es| :: OneReading(es[i])
    ensures HarmlessThroughout(start, es)
    decreases |es|
  {
    if es != [] {
      var front, e := es[..|es| - 1], es[|es| - 1];
      LastCall(start, es);
      hide Run, Timed, Timely, Next, Coupled, Harmless, OneReading, CoupledThroughout, HarmlessThroughout;
      SingleReadingAlways(start, front);
      CoupledAlways(start, front);
      CoupledSnoc(start, front, e);
      SingleReadingHarmless(Run(start, front), e);
      HarmlessSnoc(start, front, e);
    }
  }

  /**
   Driven with one clock value per poll and no session opened or closed behind its back, the machine
   is in recovery exactly while a session is open, after every call of every timed run. With one
   stamp per activation recovery also ends exactly when the session does.
   */
  lemma RecoveryIsSession(start: nat, es: seq<Event>)
    requires Timed(start, es) && forall i | 0 <= i < |es| :: OneReading(es[i])
    ensures CoupledThroughout(start, es) && Coupled(Run(start, es).m)
    ensures (forall i | 0 <= i < |es| :: OneStamp(es[i])) ==> Matched(Run(start, es).m)
  {
    hide Run, Timed, Coupled, Matched, OneReading, OneStamp, HarmlessThroughout;
    SingleReadingAlways(start, es);
    CoupledAlways(start, es);
    assert es[..|es|] == es;
    if forall i | 0 <= i < |es| :: OneStamp(es[i]) { ExpiriesMatch(start, es); }
  }

  lemma StartsMatched(start: nat)
    ensures Matched(NewMachine(start))
  {
  }

  /** Two readings of one poll on both sides of the end leave the session open in High-Risk. */
  lemma StraddleReachable(start: nat)
    ensures exists es :: Timed(start, es) && Run(start, es).m.mode.HighRisk? && Run(start, es).m.book.current.Some?
  {
    var e0 := FirstEvent(start, start);
    var open := Emergency(PasswordPlusFido2, MIN_SESSION, Readings(start, start, start, start));
    RunSnoc(start, e0, open);
    var poll := Poll(start + MIN_SESSION - 1, start + MIN_SESSION, 0);
    RunSnoc(start, e0 + [open], poll);
    assert Run(start, e0 + [open] + [poll]).m.mode.HighRisk?;
  }

  lemma LockedOutStep(m: Machine, e: Event)
    requires !m.mode.EmergencyRecovery? && m.book.current.Some? && !e.Direct?
    ensures !Next(m, e).mode.EmergencyRecovery? && Next(m, e).book.current == m.book.current
  {
  }

  /** After that, no call on the mode manager ever grants recovery again or closes the session. */
  lemma {:induction false} LockedOutForever(start: nat, es: seq<Event>, more: seq<Event>)
    requires !Run(start, es).m.mode.EmergencyRecovery? && Run(start, es).m.book.current.Some?
    requires forall i | 0 <= i < |more| :: !more[i].Direct?
    ensures var w := Run(start, es + more);
            && !w.m.mode.EmergencyRecovery?
            && w.m.book.current == Run(start, es).m.book.current
            && w.grants == Run(start, es).grants
    decreases |more|
  {
    hide Next;
    if more == [] {
      assert es + more == es;
    } else {
      var front, e := more[..|more| - 1], more[|more| - 1];
      assert (es + more)[..|es + more| - 1] == es + front;
      LockedOutForever(start, es, front);
      LockedOutStep(Run(start, es + front).m, e);
    }
  }

  // ---- Sixty minutes ----------------------------------------------------------

  /** In recovery, the mode's own expiry is at most sixty minutes after the last grant was stamped. */
  ghost predicate InvExpiry(w: World) {
    w.m.mode.EmergencyRecovery? ==>
      && w.grants != [] && w.m.expiry.Some?
      && w.m.expiry.value <= w.grants[|w.grants| - 1].stamped + MAX_SESSION
  }

  lemma ExpiryStep(w: World, e: Event)
    requires InvExpiry(w)
    ensures InvExpiry(Observed(w, e))
  {
  }

  lemma {:induction false} ExpiryAlways(start: nat, es: seq<Event>)
    ensures InvExpiry(Run(start, es))
    decreases |es|
  {
    hide InvExpiry, Observed;
    if es == [] {
      ExpiryStart(start);
    } else {
      ExpiryAlways(start, es[..|es| - 1]);
      ExpiryStep(Run(start, es[..|es| - 1]), es[|es| - 1]);
    }
  }

  lemma ExpiryStart(start: nat)
    ensures InvExpiry(Start(start))
  {
  }

  /**
   Whatever calls were made, also directly on the sessions, a poll never reports recovery sixty
   minutes after the activation it reports.
   */
  lemma NeverLongerThanAnHour(start: nat, es: seq<Event>, t1: nat, t2: nat, wall: nat)
    requires CurrentMode(Run(start, es).m, t1, t2, wall).1.EmergencyRecovery?
    ensures var grants := Run(start, es).grants;
            grants != [] && t2 < grants[|grants| - 1].stamped + 3600 * 1_000_000_000
  {
    ExpiryAlways(start, es);
  }

  // ---- What the calls answer --------------------------------------------------

  /** The open session's end has come. */
  predicate SessionOver(b: Book, t: nat) {
    b.current.Some? && b.current.value.active && t >= b.current.value.expiresAt
  }

  /**
   A poll answers the mode it leaves behind. Outside recovery it changes nothing; in recovery it
   stays there exactly while neither the session nor the mode's own expiry is over.
   */
  lemma PollAnswers(m: Machine, t1: nat, t2: nat, wall: nat)
    ensures
      var (m', r) := CurrentMode(m, t1, t2, wall);
      && r == m'.mode
      && (m.mode != EmergencyRecovery ==> m' == m)
      && (m.mode == EmergencyRecovery ==>
          && r == (if SessionOver(m.book, t1) || (m.expiry.Some? && t2 >= m.expiry.value) then HighRisk else EmergencyRecovery)
          && m'.expiry == (if r == HighRisk then None else m.expiry)
          && m'.book == (if SessionOver(m.book, t1) then Finalized(m.book, t1, wall).0 else m.book)
          && m'.activation == m.activation && m'.duration == m.duration
          && m'.activations == m.activations && m'.lastReset == m.lastReset)
  {
  }

  /** High-Risk is entered from everywhere but recovery, and left only from itself, whatever activated it. */
  lemma HighRiskAnswers(m: Machine, a: HighRiskActivation)
    ensures
      var (up, r) := ActivateHighRisk(m, a);
      var (down, q) := DeactivateHighRisk(m);
      && (m.mode == EmergencyRecovery ==> r == Err(RecoveryActive) && up == m)
      && (m.mode != EmergencyRecovery ==> r == Ok(()) && up.mode == HighRisk && up.activation == Some(a))
      && (m.mode != HighRisk ==> q == Err(NotInHighRisk) && down == m)
      && (m.mode == HighRisk ==> q == Ok(()) && down.mode == Standard && down.activation == None)
      && up.(mode := m.mode, activation := m.activation) == m == down.(mode := m.mode, activation := m.activation)
  {
  }

  /**
   An activation is refused outside High-Risk, at three activations less than a day after the last
   reset, or with a session open, in this order. A refusal changes at most the counter and its
   reset time; a grant counts, stamps and opens.
   */
  lemma EmergencyAnswers(m: Machine, auth: Auth, requested: nat, c: Readings)
    ensures
      var (m', r) := ActivateEmergency(m, auth, requested, c);
      var due := c.check >= m.lastReset + 24 * 3600 * 1_000_000_000;
      var counted := if due then 0 else m.activations;
      && (r == Err(NotInHighRisk) <==> m.mode != HighRisk)
      && (r == Err(RateLimitExceeded) <==> m.mode == HighRisk && counted >= 3)
      && (r == Err(SessionError(AlreadyActive)) <==> m.mode == HighRisk && counted < 3 && m.book.current.Some?)
      && (r == Ok(()) <==> m.mode == HighRisk && counted < 3 && m.book.current.None?)
      && (r == Err(NotInHighRisk) ==> m' == m)
      && (m.mode == HighRisk ==>
          && m'.lastReset == (if due then c.reset else m.lastReset)
          && m'.activations == counted + (if r.Ok? then 1 else 0)
          && m'.mode == (if r.Ok? then EmergencyRecovery else HighRisk)
          && m'.activation == m.activation && m'.duration == m.duration
          && (r.Err? ==> m'.book == m.book && m'.expiry == m.expiry))
  {
  }

  /** Until it is set, the default activation lasts fifteen minutes; set, it lasts one to sixty. */
  lemma {:induction false} DefaultDuration(start: nat, es: seq<Event>)
    ensures var d := Run(start, es).m.duration;
            && 60 * 1_000_000_000 <= d <= 3600 * 1_000_000_000
            && ((forall i | 0 <= i < |es| :: !es[i].SetDuration?) ==> d == 900 * 1_000_000_000)
            && (es != [] && es[|es| - 1].SetDuration? ==>
                var asked := es[|es| - 1].d;
                && (60 * 1_000_000_000 <= asked <= 3600 * 1_000_000_000 ==> d == asked)
                && (asked < 60 * 1_000_000_000 ==> d == 60 * 1_000_000_000)
                && (asked > 3600 * 1_000_000_000 ==> d == 3600 * 1_000_000_000))
    decreases |es|
  {
    if es != [] {
      var front, e := es[..|es| - 1], es[|es| - 1];
      DefaultDuration(start, front);
      ObservedMachine(Run(start, front), e);
      DurationStep(Run(start, front).m, e);
      hide Observed, Next;
    }
  }

  lemma DurationStep(m: Machine, e: Event)
    ensures !e.SetDuration? ==> Next(m, e).duration == m.duration
    ensures e.SetDuration? ==> Next(m, e).duration == Clamp(e.d)
  {
  }

  /** The default activation is the one by password and FIDO2 for the duration set. */
  lemma DefaultIsFido2(m: Machine, c: Readings)
    ensures Next(m, EmergencyDefault(c)) == Next(m, Emergency(PasswordPlusFido2, m.duration, c))
  {
  }
}
