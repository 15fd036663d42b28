/**
 The Security agent's watch over the Orchestrator: heartbeats, health polls, restart attempts
 and the degraded-coordinator role. Time is a natural in nanoseconds.
 */
module Failover {
  import opened Base

  const TIMEOUT := 15_000_000_000

  const MAX_MISSED := 3

  const MAX_RESTARTS := 3

  datatype Watch = Watch(lastSeen: Option<nat>, missed: nat, restarts: nat, degraded: bool)

  datatype Alert = Warning(attempt: nat) | Critical

  const FRESH := Watch(None, 0, 0, false)

  predicate Alive(w: Watch, now: nat) { w.lastSeen.Some? && now - w.lastSeen.value < TIMEOUT }

  function Heartbeat(w: Watch, now: nat): Watch {
    var w1 := w.(lastSeen := Some(now), missed := 0);
    if w1.degraded then w1.(degraded := false, restarts := 0) else w1
  }

  function Poll(w: Watch, now: nat): (Watch, Option<Alert>) {
    if Alive(w, now) then (w, None)
    else
      var w1 := w.(missed := w.missed + 1);
      if w1.missed < MAX_MISSED then (w1, None)
      else
        var w2 := w1.(restarts := w1.restarts + 1);
        if w2.restarts > MAX_RESTARTS then (w2, Some(Critical))
        else (w2.(degraded := true), Some(Warning(w2.restarts)))
  }

  class SecurityWatch {
    var lastSeen: Option<nat>
    var missed: nat
    var restarts: nat
    var degraded: bool

    function View(): Watch
      reads this
    {
      Watch(lastSeen, missed, restarts, degraded)
    }

    constructor ()
      ensures View() == FRESH
    {
      lastSeen, missed, restarts, degraded := None, 0, 0, false;
    }

    method ProcessHeartbeat(now: nat)
      modifies this
      ensures View() == Heartbeat(old(View()), now)
    {
      lastSeen := Some(now);
      missed := 0;
      if degraded {
        degraded := false;
        restarts := 0;
      }
    }

    method CheckOrchestratorHealth(now: nat) returns (r: Option<Alert>)
      modifies this
      ensures (View(), r) == Poll(old(View()), now)
    {
      if lastSeen.Some? && now - lastSeen.value < TIMEOUT { return None; }
      missed := missed + 1;
      if missed < MAX_MISSED { return None; }
      restarts := restarts + 1;
      if restarts > MAX_RESTARTS { return Some(Critical); }
      if !degraded { degraded := true; }
      return Some(Warning(restarts));
    }
  }

  datatype Event = Beat(at: nat) | Check(at: nat)

  function Step(w: Watch, e: Event): Watch {
    match e case Beat(at) => Heartbeat(w, at) case Check(at) => Poll(w, at).0
  }

  function Run(es: seq<Event>): Watch {
    if es == [] then FRESH else Step(Run(es[..|es| - 1]), es[|es| - 1])
  }

  function LastBeat(es: seq<Event>): Option<nat> {
    if es == [] then None
    else if es[|es| - 1].Beat? then Some(es[|es| - 1].at)
    else LastBeat(es[..|es| - 1])
  }

  /** A poll is dead when no heartbeat came in the fifteen seconds before it. */
  predicate Dead(es: seq<Event>, at: nat) { LastBeat(es).None? || at >= LastBeat(es).value + 15 * 1_000_000_000 }

  /** Dead polls since the last heartbeat, read off the event list alone. */
  function DeadPolls(es: seq<Event>): nat {
    if es == [] || es[|es| - 1].Beat? then 0
    else DeadPolls(es[..|es| - 1]) + if Dead(es[..|es| - 1], es[|es| - 1].at) then 1 else 0
  }

  /** The alert owed to the n-th dead poll. */
  function Owed(n: nat): Option<Alert> {
    if n <= 2 then None else if n <= 5 then Some(Warning(n - 2)) else Some(Critical)
  }

  /** The whole state is a function of the dead polls since the last heartbeat. */
  lemma {:induction false} StateFromHistory(es: seq<Event>)
    ensures Run(es) == Watch(LastBeat(es), DeadPolls(es), Max(0, DeadPolls(es) - 2), DeadPolls(es) >= 3)
    decreases |es|
  {
    if es != [] { StateFromHistory(es[..|es| - 1]); }
  }

  /** In every run: two silent dead polls, Warnings 1 to 3, then Critical until the next heartbeat. */
  lemma AlertSchedule(es: seq<Event>, at: nat)
    ensures Poll(Run(es), at).1 == if Dead(es, at) then Owed(DeadPolls(es) + 1) else None
  {
    StateFromHistory(es);
  }
}
