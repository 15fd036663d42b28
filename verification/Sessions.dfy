/**
 Emergency recovery sessions: opening, recording actions, expiry, early end, and reports.

 Instants and durations are naturals in nanoseconds; `wall` is the wall clock in seconds, used
 only in records. Clock readings are arguments and may be any values.
 */
module Sessions {
  import opened Base

  const SEC := 1_000_000_000

  const MIN_SESSION := 60 * SEC

  const MAX_SESSION := 3600 * SEC

  datatype Auth = PasswordPlusFido2 | PasswordPlusTpmPin | PasswordPlusBiometric

  datatype Action = Action(id: nat, description: string, timestamp: nat, agent: string, emergencyOverride: bool)

  datatype Session = Session(id: nat, activatedAt: nat, expiresAt: nat, duration: nat, auth: Auth,
                             actions: seq<Action>, active: bool)

  datatype Summary = Summary(id: nat, startedAt: nat, durationSecs: nat, actionsCount: nat, auth: Auth)

  datatype Report = Report(id: nat, durationSecs: nat, auth: Auth, totalActions: nat, actions: seq<Action>, generatedAt: nat)

  datatype ActivationError = AlreadyActive | DurationExceedsMax | DurationBelowMin

  datatype Book = Book(current: Option<Session>, sessionCounter: nat, actionCounter: nat,
                       history: seq<Summary>, last: Option<Session>)

  const EMPTY := Book(None, 0, 0, [], None)

  function Since(now: nat, at: nat): nat { if now >= at then now - at else 0 }

  function Activated(b: Book, auth: Auth, duration: nat, now: nat): (Book, Result<nat, ActivationError>) {
    if b.current.Some? then (b, Err(AlreadyActive))
    else if duration < MIN_SESSION then (b, Err(DurationBelowMin))
    else if duration > MAX_SESSION then (b, Err(DurationExceedsMax))
    else
      var id := b.sessionCounter + 1;
      (b.(sessionCounter := id, current := Some(Session(id, now, now + duration, duration, auth, [], true))), Ok(id))
  }

  function Recorded(b: Book, description: string, agent: string, wall: nat): (Book, nat) {
    if b.current.None? || !b.current.value.active then (b, 0)
    else
      var id := b.actionCounter + 1;
      var s := b.current.value;
      (b.(actionCounter := id, current := Some(s.(actions := s.actions + [Action(id, description, wall, agent, true)]))), id)
  }

  /** Archive the open session. */
  function Finalized(b: Book, now: nat, wall: nat): (Book, Option<Summary>) {
    match b.current
    case None => (b, None)
    case Some(s) =>
      var elapsed := Since(now, s.activatedAt) / SEC;
      var summary := Summary(s.id, Since(wall, elapsed), elapsed, |s.actions|, s.auth);
      (b.(current := None, history := b.history + [summary], last := Some(s.(active := false))), Some(summary))
  }

  predicate Expired(b: Book, now: nat) { b.current.Some? && b.current.value.active && now >= b.current.value.expiresAt }

  function Checked(b: Book, now: nat, wall: nat): (Book, bool) {
    if Expired(b, now) then (Finalized(b, now, wall).0, true) else (b, false)
  }

  function ReportOf(b: Book, now: nat, wall: nat): Option<Report> {
    if b.current.Some? || b.last.None? then None
    else
      var s := b.last.value;
      Some(Report(s.id, Min(Since(now, s.activatedAt), s.duration) / SEC, s.auth, |s.actions|, s.actions, wall))
  }

  // ---- The manager object -----------------------------------------------------

  class EmergencyRecoveryManager {
    var current: Option<Session>
    var sessionCounter: nat
    var actionCounter: nat
    var history: seq<Summary>
    var last: Option<Session>

    function View(): Book
      reads this
    {
      Book(current, sessionCounter, actionCounter, history, last)
    }

    constructor ()
      ensures View() == EMPTY
    {
      current, sessionCounter, actionCounter, history, last := None, 0, 0, [], None;
    }

    method Activate(auth: Auth, duration: nat, now: nat) returns (r: Result<nat, ActivationError>)
      modifies this
      ensures (View(), r) == Activated(old(View()), auth, duration, now)
    {
      if current.Some? { return Err(AlreadyActive); }
      if duration < MIN_SESSION { return Err(DurationBelowMin); }
      if duration > MAX_SESSION { return Err(DurationExceedsMax); }
      sessionCounter := sessionCounter + 1;
      current := Some(Session(sessionCounter, now, now + duration, duration, auth, [], true));
      return Ok(sessionCounter);
    }

    method RecordAction(description: string, agent: string, wall: nat) returns (id: nat)
      modifies this
      ensures (View(), id) == Recorded(old(View()), description, agent, wall)
    {
      if current.None? || !current.value.active { return 0; }
      actionCounter := actionCounter + 1;
      var s := current.value;
      current := Some(s.(actions := s.actions + [Action(actionCounter, description, wall, agent, true)]));
      return actionCounter;
    }

    method FinalizeSession(now: nat, wall: nat) returns (r: Option<Summary>)
      modifies this
      ensures (View(), r) == Finalized(old(View()), now, wall)
    {
      if current.None? { return None; }
      var s := current.value;
      current := None;
      var elapsed := Since(now, s.activatedAt) / SEC;
      var summary := Summary(s.id, Since(wall, elapsed), elapsed, |s.actions|, s.auth);
      history := history + [summary];
      last := Some(s.(active := false));
      return Some(summary);
    }

    method CheckExpiry(now: nat, wall: nat) returns (expired: bool)
      modifies this
      ensures (View(), expired) == Checked(old(View()), now, wall)
    {
      expired := current.Some? && current.value.active && now >= current.value.expiresAt;
      if expired { var _ := FinalizeSession(now, wall); }
    }

    method Deactivate(now: nat, wall: nat) returns (r: Option<Summary>)
      modifies this
      ensures (View(), r) == Finalized(old(View()), now, wall)
    {
      if current.None? { return None; }
      r := FinalizeSession(now, wall);
    }
  }

  // ---- Every sequence of calls ------------------------------------------------

  datatype Call =
    | Activate(auth: Auth, duration: nat, now: nat)
    | RecordAction(description: string, agent: string, wall: nat)
    | CheckExpiry(now: nat, wall: nat)
    | Deactivate(now: nat, wall: nat)

  function Step(b: Book, c: Call): Book {
    match c
    case Activate(auth, duration, now) => Activated(b, auth, duration, now).0
    case RecordAction(description, agent, wall) => Recorded(b, description, agent, wall).0
    case CheckExpiry(now, wall) => Checked(b, now, wall).0
    case Deactivate(now, wall) => Finalized(b, now, wall).0
  }

  function Run(cs: seq<Call>): Book {
    if cs == [] then EMPTY else Step(Run(cs[..|cs| - 1]), cs[|cs| - 1])
  }

  /** A closed session and the readings at its end. */
  datatype Ended = Ended(session: Session, now: nat, wall: nat)

  /** The session a call closes, if any. */
  function Closing(b: Book, c: Call): seq<Ended> {
    if b.current.Some? && (c.Deactivate? || (c.CheckExpiry? && Expired(b, c.now)))
    then [Ended(b.current.value.(active := false), c.now, c.wall)] else []
  }

  /** The sessions a run has closed, in order, as an auditor would have copied them. */
  function Closed(cs: seq<Call>): seq<Ended> {
    if cs == [] then [] else Closed(cs[..|cs| - 1]) + Closing(Run(cs[..|cs| - 1]), cs[|cs| - 1])
  }

  function AllActions(ss: seq<Ended>): seq<Action> {
    if ss == [] then [] else AllActions(ss[..|ss| - 1]) + ss[|ss| - 1].session.actions
  }

  function OpenActions(b: Book): seq<Action> { if b.current.Some? then b.current.value.actions else [] }

  function Counted(h: seq<Summary>): nat {
    if h == [] then 0 else Counted(h[..|h| - 1]) + h[|h| - 1].actionsCount
  }

  predicate Tells(sum: Summary, x: Ended) {
    && sum.id == x.session.id && sum.actionsCount == |x.session.actions| && sum.auth == x.session.auth
    && sum.durationSecs == Since(x.now, x.session.activatedAt) / SEC
    && sum.startedAt == Since(x.wall, sum.durationSecs)
  }

  /** The book agrees with the closed sessions and the numbering has no gap. */
  ghost predicate Consistent(b: Book, closed: seq<Ended>) {
    && |b.history| == |closed|
    && (forall i | 0 <= i < |closed| :: closed[i].session.id == i + 1 && Tells(b.history[i], closed[i]))
    && b.sessionCounter == |closed| + (if b.current.Some? then 1 else 0)
    && (b.current.Some? ==>
          var s := b.current.value;
          && s.id == b.sessionCounter && s.active
          && s.expiresAt == s.activatedAt + s.duration && MIN_SESSION <= s.duration <= MAX_SESSION)
    && b.last == (if closed == [] then None else Some(closed[|closed| - 1].session))
    && var actions := AllActions(closed) + OpenActions(b);
       && |actions| == b.actionCounter
       && forall k | 0 <= k < |actions| :: actions[k].id == k + 1 && actions[k].emergencyOverride
  }

  lemma ClosedAppend(closed: seq<Ended>, x: Ended)
    ensures AllActions(closed + [x]) == AllActions(closed) + x.session.actions
  {
    assert (closed + [x])[..|closed|] == closed;
  }

  lemma FinalizeKeeps(b: Book, closed: seq<Ended>, now: nat, wall: nat)
    requires Consistent(b, closed) && b.current.Some?
    ensures Consistent(Finalized(b, now, wall).0, closed + [Ended(b.current.value.(active := false), now, wall)])
  {
    var s := b.current.value.(active := false);
    ClosedAppend(closed, Ended(s, now, wall));
    assert AllActions(closed) + s.actions + [] == AllActions(closed) + OpenActions(b);
  }

  lemma RecordKeeps(b: Book, closed: seq<Ended>, description: string, agent: string, wall: nat)
    requires Consistent(b, closed)
    ensures Consistent(Recorded(b, description, agent, wall).0, closed)
  {
    if b.current.Some? {
      var a := Action(b.actionCounter + 1, description, wall, agent, true);
      assert AllActions(closed) + (b.current.value.actions + [a]) == AllActions(closed) + OpenActions(b) + [a];
    }
  }

  lemma ActivateKeeps(b: Book, closed: seq<Ended>, auth: Auth, duration: nat, now: nat)
    requires Consistent(b, closed)
    ensures Consistent(Activated(b, auth, duration, now).0, closed)
  {
  }

  lemma StepKeeps(b: Book, closed: seq<Ended>, c: Call)
    requires Consistent(b, closed)
    ensures Consistent(Step(b, c), closed + Closing(b, c))
  {
    hide Consistent, Activated, Recorded, Finalized;
    assert closed + [] == closed;
    match c
    case Activate(auth, duration, now) => ActivateKeeps(b, closed, auth, duration, now);
    case RecordAction(description, agent, wall) => RecordKeeps(b, closed, description, agent, wall);
    case CheckExpiry(now, wall) => if Expired(b, now) { FinalizeKeeps(b, closed, now, wall); }
    case Deactivate(now, wall) => DeactivateKeeps(b, closed, now, wall);
  }

  lemma DeactivateKeeps(b: Book, closed: seq<Ended>, now: nat, wall: nat)
    requires Consistent(b, closed)
    ensures Consistent(Finalized(b, now, wall).0, closed + Closing(b, Deactivate(now, wall)))
  {
    if b.current.Some? { FinalizeKeeps(b, closed, now, wall); } else { assert closed + [] == closed; }
  }

  /** After any calls at any times the books balance. */
  lemma {:induction false} BooksBalance(cs: seq<Call>)
    ensures Consistent(Run(cs), Closed(cs))
    decreases |cs|
  {
    hide Step, Closing;
    if cs != [] {
      BooksBalance(cs[..|cs| - 1]);
      StepKeeps(Run(cs[..|cs| - 1]), Closed(cs[..|cs| - 1]), cs[|cs| - 1]);
    }
  }

  lemma {:induction false} CountedIs(h: seq<Summary>, closed: seq<Ended>)
    requires |h| == |closed| && forall i | 0 <= i < |h| :: h[i].actionsCount == |closed[i].session.actions|
    ensures Counted(h) == |AllActions(closed)|
    decreases |h|
  {
    if h != [] { CountedIs(h[..|h| - 1], closed[..|closed| - 1]); }
  }

  /**
   History ids are 1 to n, the session counter is n plus one for an open session, and the action
   counter is the archived counts plus the open session's actions.
   */
  lemma CountersAgree(cs: seq<Call>)
    ensures var b := Run(cs);
            && (forall i | 0 <= i < |b.history| :: b.history[i].id == i + 1)
            && b.sessionCounter == |b.history| + (if b.current.Some? then 1 else 0)
            && b.actionCounter == Counted(b.history) + |OpenActions(b)|
  {
    BooksBalance(cs);
    CountedIs(Run(cs).history, Closed(cs));
  }

  lemma {:induction false} ActionPosition(closed: seq<Ended>, i: nat, k: nat)
    requires i < |closed| && k < |closed[i].session.actions|
    ensures |AllActions(closed[..i])| + k < |AllActions(closed)|
    ensures AllActions(closed)[|AllActions(closed[..i])| + k] == closed[i].session.actions[k]
    decreases |closed| - i
  {
    var n := |closed| - 1;
    if i < n {
      ActionPosition(closed[..n], i, k);
      assert closed[..n][..i] == closed[..i];
    }
  }

  lemma {:induction false} ActionsBefore(closed: seq<Ended>, i: nat, j: nat)
    requires i < j <= |closed|
    ensures |AllActions(closed[..i])| + |closed[i].session.actions| <= |AllActions(closed[..j])|
    decreases j - i
  {
    assert closed[..j][..j - 1] == closed[..j - 1];
    if i < j - 1 { ActionsBefore(closed, i, j - 1); }
  }

  /** Action ids grow strictly within a session and from one session to every later one. */
  lemma ActionIdsGrow(cs: seq<Call>, i: nat, k: nat, j: nat, l: nat)
    requires i < |Closed(cs)| && k < |Closed(cs)[i].session.actions|
    requires j < |Closed(cs)| && l < |Closed(cs)[j].session.actions|
    requires i < j || (i == j && k < l)
    ensures Closed(cs)[i].session.actions[k].id < Closed(cs)[j].session.actions[l].id
  {
    BooksBalance(cs);
    var closed := Closed(cs);
    ActionPosition(closed, i, k);
    ActionPosition(closed, j, l);
    if i < j { ActionsBefore(closed, i, j); }
    var all := AllActions(closed) + OpenActions(Run(cs));
    assert all[|AllActions(closed[..i])| + k] == closed[i].session.actions[k];
    assert all[|AllActions(closed[..j])| + l] == closed[j].session.actions[l];
  }

  /** The report is withheld while a session is open or none has ended; otherwise it lists the last session. */
  lemma ReportTellsLast(cs: seq<Call>, now: nat, wall: nat)
    ensures var r := ReportOf(Run(cs), now, wall);
            var closed := Closed(cs);
            && (r.Some? <==> Run(cs).current.None? && closed != [])
            && (r.Some? ==>
                  var s := closed[|closed| - 1].session;
                  && r.value.id == |closed| && r.value.actions == s.actions && r.value.totalActions == |s.actions|
                  && r.value.auth == s.auth && r.value.generatedAt == wall && r.value.durationSecs <= 3600
                  && r.value.durationSecs == Min(Since(now, s.activatedAt), s.duration) / SEC)
  {
    BooksBalance(cs);
    if Closed(cs) != [] && Run(cs).current.None? { ClosedDurations(cs); }
  }

  lemma {:induction false} ClosedDurations(cs: seq<Call>)
    ensures forall i | 0 <= i < |Closed(cs)| :: Closed(cs)[i].session.duration <= MAX_SESSION
    decreases |cs|
  {
    if cs != [] {
      BooksBalance(cs[..|cs| - 1]);
      ClosedDurations(cs[..|cs| - 1]);
    }
  }

  function Told(c: Call): (string, string, nat)
    requires c.RecordAction?
  {
    (c.description, c.agent, c.wall)
  }

  /** What was recorded since the open session began, read off the calls. */
  function OpenLog(cs: seq<Call>): seq<(string, string, nat)> {
    if cs == [] || Run(cs).current.None? then []
    else
      var front, c := cs[..|cs| - 1], cs[|cs| - 1];
      if c.RecordAction? then OpenLog(front) + [Told(c)] else OpenLog(front)
  }

  predicate Says(a: Action, t: (string, string, nat)) { (a.description, a.agent, a.timestamp) == t && a.emergencyOverride }

  lemma OpenStep(b: Book, c: Call)
    requires b.current.Some? ==> b.current.value.active
    ensures var b' := Step(b, c);
            && (b'.current.Some? && c.RecordAction? ==>
                  && |OpenActions(b')| == |OpenActions(b)| + 1 && OpenActions(b) <= OpenActions(b')
                  && Says(OpenActions(b')[|OpenActions(b)|], Told(c)))
            && (b'.current.Some? && !c.RecordAction? ==> OpenActions(b') == OpenActions(b))
  {
  }

  /** The open session holds exactly the recorded calls, in order and word for word. */
  lemma {:induction false} OpenSessionTellsCalls(cs: seq<Call>)
    ensures var actions := OpenActions(Run(cs));
            && |actions| == |OpenLog(cs)|
            && forall k | 0 <= k < |actions| :: Says(actions[k], OpenLog(cs)[k])
    decreases |cs|
  {
    hide Step, Says, Closed;
    if cs != [] {
      BooksBalance(cs[..|cs| - 1]);
      OpenSessionTellsCalls(cs[..|cs| - 1]);
      OpenStep(Run(cs[..|cs| - 1]), cs[|cs| - 1]);
    }
  }

  /**
   The report gives the session's age when it is asked for, capped by the planned duration. That is
   the archived length exactly when the session ended in the last planned second, or earlier and the
   report is asked for within the same second.
   */
  lemma ReportDurationExact(cs: seq<Call>, now: nat, wall: nat)
    requires Run(cs).current.None? && Closed(cs) != []
    requires Closed(cs)[|Closed(cs)| - 1].now <= now
    ensures |Run(cs).history| == |Closed(cs)|
    ensures var x := Closed(cs)[|Closed(cs)| - 1];
            var archived := Run(cs).history[|Closed(cs)| - 1].durationSecs;
            var planned := x.session.duration / SEC;
            && ReportOf(Run(cs), now, wall).Some?
            && archived == Since(x.now, x.session.activatedAt) / SEC
            && (ReportOf(Run(cs), now, wall).value.durationSecs == archived <==>
                planned == archived || (planned > archived && Since(now, x.session.activatedAt) / SEC == archived))
  {
    BooksBalance(cs);
    var x := Closed(cs)[|Closed(cs)| - 1];
    var length, age := Since(x.now, x.session.activatedAt), Since(now, x.session.activatedAt);
    CappedSeconds(length, age, x.session.duration);
  }

  lemma CappedSeconds(length: nat, age: nat, planned: nat)
    requires length <= age
    ensures Min(age, planned) / SEC == length / SEC <==>
              planned / SEC == length / SEC || (planned / SEC > length / SEC && age / SEC == length / SEC)
  {
    SecondsGrow(length, age);
    if age <= planned { SecondsGrow(age, planned); } else { SecondsGrow(planned, age); }
  }

  lemma SecondsGrow(a: nat, b: nat)
    requires a <= b
    ensures a / SEC <= b / SEC
  {
  }

  /** A session ended after one minute is reported as ten minutes long when the report is asked for nine minutes later. */
  lemma ReportOverstates(auth: Auth)
    ensures var cs := [Activate(auth, MAX_SESSION, 0), Deactivate(60 * SEC, 0)];
            && |Run(cs).history| == 1 && Run(cs).history[0].durationSecs == 60
            && ReportOf(Run(cs), 600 * SEC, 0).Some?
            && ReportOf(Run(cs), 600 * SEC, 0).value.durationSecs == 600
  {
    var first := Activate(auth, MAX_SESSION, 0);
    var cs := [first, Deactivate(60 * SEC, 0)];
    assert cs[..1] == [first] && [first][..0] == [];
    assert Run([first]) == Activated(Run([]), auth, MAX_SESSION, 0).0;
  }

  // ---- What the calls answer --------------------------------------------------

  /**
   Over every run, an activation is granted exactly when no session is open and the duration is
   between one minute and one hour, with the number of sessions so far plus one as its id. The
   session then ends that duration after its start.
   */
  lemma ActivateAnswers(cs: seq<Call>, auth: Auth, duration: nat, now: nat)
    ensures
      var b := Run(cs);
      var (b', r) := Activated(b, auth, duration, now);
      && (r == Err(AlreadyActive) <==> b.current.Some?)
      && (r == Err(DurationBelowMin) <==> b.current.None? && duration < 60_000_000_000)
      && (r == Err(DurationExceedsMax) <==> b.current.None? && duration > 3_600_000_000_000)
      && (r.Err? ==> b' == b)
      && (r.Ok? ==> r.value == |Closed(cs)| + 1
                    && b'.current == Some(Session(r.value, now, now + duration, duration, auth, [], true))
                    && b'.history == b.history && b'.last == b.last && b'.actionCounter == b.actionCounter)
  {
    BooksBalance(cs);
  }

  /** Over every run, recording answers how many actions were ever recorded with this one, or zero with no session open. */
  lemma RecordAnswers(cs: seq<Call>, description: string, agent: string, wall: nat)
    ensures
      var b := Run(cs);
      var (b', id) := Recorded(b, description, agent, wall);
      && (b.current.None? ==> id == 0 && b' == b)
      && (b.current.Some? ==>
          && id == |AllActions(Closed(cs))| + |OpenActions(b)| + 1
          && OpenActions(b') == OpenActions(b) + [Action(id, description, wall, agent, true)]
          && b'.history == b.history && b'.last == b.last && b'.sessionCounter == b.sessionCounter)
  {
    BooksBalance(cs);
  }

  /** Ending a session answers the entry it adds to the history: whole seconds since the start, and the actions counted. */
  lemma FinalizeAnswers(b: Book, now: nat, wall: nat)
    ensures
      var (b', r) := Finalized(b, now, wall);
      && (b.current.None? ==> r == None && b' == b)
      && (b.current.Some? ==>
          && r.Some? && b'.current == None && b'.history == b.history + [r.value]
          && b'.last == Some(b.current.value.(active := false))
          && b'.sessionCounter == b.sessionCounter && b'.actionCounter == b.actionCounter
          && var x, s := r.value, b.current.value;
             && x.id == s.id && x.auth == s.auth && x.actionsCount == |s.actions|
             && (now >= s.activatedAt ==>
                 s.activatedAt + x.durationSecs * 1_000_000_000 <= now < s.activatedAt + (x.durationSecs + 1) * 1_000_000_000)
             && (now < s.activatedAt ==> x.durationSecs == 0)
             && x.startedAt == Max(0, wall - x.durationSecs))
  {
  }

  /** Over every run, the expiry check answers whether an open session's end has come, and then ends it. */
  lemma CheckAnswers(cs: seq<Call>, now: nat, wall: nat)
    ensures
      var b := Run(cs);
      var (b', expired) := Checked(b, now, wall);
      && (expired <==> b.current.Some? && now >= b.current.value.activatedAt + b.current.value.duration)
      && b' == (if expired then Finalized(b, now, wall).0 else b)
  {
    BooksBalance(cs);
  }
}
