/**
 The differential-privacy budget accountant and the Security agent's pre-flight check.

 Double-precision numbers are modelled as exact reals, so rounding is abstracted; the comparison
 tolerance keeps its value, 2^-52. Non-finite inputs are a separate value.
 */
module Privacy {
  import opened Base

  const TOLERANCE := 1.0 / 4503599627370496.0

  datatype F64 = Finite(v: real) | NotFinite

  datatype Sensitivity = Public | Internal | Personal | SensitivePersonal | SpecialCategory

  function Cost(s: Sensitivity): real {
    match s
    case Public => 0.0
    case Internal => 0.1
    case Personal => 0.5
    case SensitivePersonal => 1.0
    case SpecialCategory => 2.0
  }

  datatype Budget = Budget(granted: real, consumed: real) {
    function Remaining(): real { if granted > consumed then granted - consumed else 0.0 }
  }

  datatype Charge = Charge(agent: string, cost: real, category: Sensitivity, description: string)

  datatype Accountant = Accountant(epsMax: real, epsUsed: real, delta: real, agents: map<string, Budget>, ledger: seq<Charge>)

  datatype Denial =
    | BudgetExhausted(requested: real, remaining: real)
    | AgentNotFound(agent: string)
    | AgentBudgetExhausted(agent: string, requested: real, remaining: real)
    | AllocationExceedsSystem(requested: real, available: real)
    | InvalidEpsilon

  // ---- Sums over agents -------------------------------------------------------

  ghost function Sum(m: map<string, Budget>, f: Budget -> real): real
    decreases |m|
  {
    if m == map[] then 0.0
    else
      var k :| k in m;
      f(m[k]) + Sum(m - {k}, f)
  }

  lemma {:induction false} SumRemove(m: map<string, Budget>, f: Budget -> real, k: string)
    requires k in m
    ensures Sum(m, f) == f(m[k]) + Sum(m - {k}, f)
    decreases |m|
  {
    var x :| x in m && Sum(m, f) == f(m[x]) + Sum(m - {x}, f);
    if x != k {
      SumRemove(m - {x}, f, k);
      SumRemove(m - {k}, f, x);
      assert m - {x} - {k} == m - {k} - {x};
    }
  }

  lemma SumUpdate(m: map<string, Budget>, f: Budget -> real, k: string, b: Budget)
    ensures Sum(m[k := b], f) == Sum(m, f) - (if k in m then f(m[k]) else 0.0) + f(b)
  {
    SumRemove(m[k := b], f, k);
    assert m[k := b] - {k} == m - {k};
    if k in m { SumRemove(m, f, k); } else { assert m - {k} == m; }
  }

  const ALLOCATED := (b: Budget) => b.granted

  const CONSUMED := (b: Budget) => b.consumed

  // ---- Operations -------------------------------------------------------------

  function NewAccountant(epsMax: F64, delta: F64): Result<Accountant, Denial> {
    if epsMax.NotFinite? || epsMax.v < 0.0 || delta.NotFinite? || delta.v < 0.0 then Err(InvalidEpsilon)
    else Ok(Accountant(epsMax.v, 0.0, delta.v, map[], []))
  }

  ghost function Available(a: Accountant, agent: string): real {
    a.epsMax - (Sum(a.agents, ALLOCATED) - if agent in a.agents then a.agents[agent].granted else 0.0)
  }

  ghost function Allocate(a: Accountant, agent: string, eps: F64): (Accountant, Result<(), Denial>) {
    if eps.NotFinite? || eps.v < 0.0 then (a, Err(InvalidEpsilon))
    else if eps.v > Available(a, agent) + TOLERANCE then (a, Err(AllocationExceedsSystem(eps.v, Available(a, agent))))
    else
      var consumed := if agent in a.agents then a.agents[agent].consumed else 0.0;
      (a.(agents := a.agents[agent := Budget(eps.v, consumed)]), Ok(()))
  }

  function Consume(a: Accountant, agent: string, s: Sensitivity, description: string): (Accountant, Result<real, Denial>) {
    var cost := Cost(s);
    if cost == 0.0 then (a, Ok(if agent in a.agents then a.agents[agent].Remaining() else 0.0))
    else if agent !in a.agents then (a, Err(AgentNotFound(agent)))
    else if cost > a.epsMax - a.epsUsed + TOLERANCE then (a, Err(BudgetExhausted(cost, a.epsMax - a.epsUsed)))
    else if cost > a.agents[agent].Remaining() + TOLERANCE then
      (a, Err(AgentBudgetExhausted(agent, cost, a.agents[agent].Remaining())))
    else
      var b := a.agents[agent].(consumed := a.agents[agent].consumed + cost);
      (a.(epsUsed := a.epsUsed + cost, agents := a.agents[agent := b],
          ledger := a.ledger + [Charge(agent, cost, s, description)]), Ok(b.Remaining()))
  }

  function RemainingSystem(a: Accountant): real { if a.epsMax > a.epsUsed then a.epsMax - a.epsUsed else 0.0 }

  /** The Security agent's read-only check, which clamps the system remainder at zero. */
  function PreFlight(a: Accountant, agent: string, s: Sensitivity): Result<(), Denial> {
    var cost := Cost(s);
    if cost == 0.0 then Ok(())
    else if agent !in a.agents then Err(AgentNotFound(agent))
    else if cost > RemainingSystem(a) + TOLERANCE then Err(BudgetExhausted(cost, RemainingSystem(a)))
    else if cost > a.agents[agent].Remaining() + TOLERANCE then
      Err(AgentBudgetExhausted(agent, cost, a.agents[agent].Remaining()))
    else Ok(())
  }

  // ---- The accountant object --------------------------------------------------

  class PrivacyBudgetAccountant {
    const epsMax: real
    const delta: real
    var epsUsed: real
    var agents: map<string, Budget>
    var ledger: seq<Charge>

    function View(): Accountant
      reads this
    {
      Accountant(epsMax, epsUsed, delta, agents, ledger)
    }

    constructor (epsMax: real, delta: real)
      ensures View() == Accountant(epsMax, 0.0, delta, map[], [])
    {
      this.epsMax, this.delta := epsMax, delta;
      epsUsed, agents, ledger := 0.0, map[], [];
    }

    static method Create(epsMax: F64, delta: F64) returns (r: Result<PrivacyBudgetAccountant, Denial>)
      ensures r.Ok? ==> fresh(r.value) && NewAccountant(epsMax, delta) == Ok(r.value.View())
      ensures r.Err? ==> NewAccountant(epsMax, delta) == Err(r.error)
    {
      if epsMax.NotFinite? || epsMax.v < 0.0 { return Err(InvalidEpsilon); }
      if delta.NotFinite? || delta.v < 0.0 { return Err(InvalidEpsilon); }
      var a := new PrivacyBudgetAccountant(epsMax.v, delta.v);
      return Ok(a);
    }

    /** The iterator sum over the allocation map, in whatever order it yields. */
    method TotalAllocated() returns (total: real)
      ensures total == Sum(agents, ALLOCATED)
    {
      total := 0.0;
      var rest := agents;
      while rest != map[]
        invariant total + Sum(rest, ALLOCATED) == Sum(agents, ALLOCATED)
        decreases |rest|
      {
        var k :| k in rest;
        SumRemove(rest, ALLOCATED, k);
        total := total + rest[k].granted;
        rest := rest - {k};
      }
    }

    method AllocateAgent(agent: string, eps: F64) returns (r: Result<(), Denial>)
      modifies this
      ensures (View(), r) == Allocate(old(View()), agent, eps)
    {
      if eps.NotFinite? || eps.v < 0.0 { return Err(InvalidEpsilon); }
      var existing := if agent in agents then agents[agent].granted else 0.0;
      var total := TotalAllocated();
      var available := epsMax - (total - existing);
      if eps.v > available + TOLERANCE { return Err(AllocationExceedsSystem(eps.v, available)); }
      var consumed := if agent in agents then agents[agent].consumed else 0.0;
      agents := agents[agent := Budget(eps.v, consumed)];
      return Ok(());
    }

    method Spend(agent: string, s: Sensitivity, description: string) returns (r: Result<real, Denial>)
      modifies this
      ensures (View(), r) == Consume(old(View()), agent, s, description)
    {
      var cost := Cost(s);
      if cost == 0.0 { return Ok(if agent in agents then agents[agent].Remaining() else 0.0); }
      if agent !in agents { return Err(AgentNotFound(agent)); }
      var sysRemaining := epsMax - epsUsed;
      if cost > sysRemaining + TOLERANCE { return Err(BudgetExhausted(cost, sysRemaining)); }
      var agentRemaining := agents[agent].Remaining();
      if cost > agentRemaining + TOLERANCE { return Err(AgentBudgetExhausted(agent, cost, agentRemaining)); }
      epsUsed := epsUsed + cost;
      agents := agents[agent := agents[agent].(consumed := agents[agent].consumed + cost)];
      ledger := ledger + [Charge(agent, cost, s, description)];
      return Ok(agents[agent].Remaining());
    }
  }

  // ---- Every run --------------------------------------------------------------

  datatype Call = AllocateCall(agent: string, eps: F64) | ConsumeCall(agent: string, s: Sensitivity, description: string)

  ghost function Step(a: Accountant, c: Call): Accountant {
    match c
    case AllocateCall(agent, eps) => Allocate(a, agent, eps).0
    case ConsumeCall(agent, s, description) => Consume(a, agent, s, description).0
  }

  ghost function Run(a: Accountant, cs: seq<Call>): Accountant {
    if cs == [] then a else Step(Run(a, cs[..|cs| - 1]), cs[|cs| - 1])
  }

  function LedgerSum(ledger: seq<Charge>): real {
    if ledger == [] then 0.0 else LedgerSum(ledger[..|ledger| - 1]) + ledger[|ledger| - 1].cost
  }

  function LedgerOf(ledger: seq<Charge>, agent: string): real {
    if ledger == [] then 0.0
    else
      var last := ledger[|ledger| - 1];
      LedgerOf(ledger[..|ledger| - 1], agent) + if last.agent == agent then last.cost else 0.0
  }

  /** One amount, booked three ways, and within one tolerance of the maximum. */
  ghost predicate Balanced(a: Accountant) {
    && a.epsUsed == LedgerSum(a.ledger)
    && a.epsUsed == Sum(a.agents, CONSUMED)
    && (forall agent | agent in a.agents :: a.agents[agent].consumed == LedgerOf(a.ledger, agent))
    && (forall i | 0 <= i < |a.ledger| ::
          && a.ledger[i].agent in a.agents
          && a.ledger[i].cost == Cost(a.ledger[i].category) > 0.0)
    && a.epsUsed <= a.epsMax + TOLERANCE
    && Sum(a.agents, ALLOCATED) <= a.epsMax + TOLERANCE
  }

  lemma LedgerAppend(ledger: seq<Charge>, c: Charge, agent: string)
    ensures LedgerSum(ledger + [c]) == LedgerSum(ledger) + c.cost
    ensures LedgerOf(ledger + [c], agent) == LedgerOf(ledger, agent) + if c.agent == agent then c.cost else 0.0
  {
    assert (ledger + [c])[..|ledger|] == ledger;
  }

  lemma {:induction false} NoCharges(ledger: seq<Charge>, agent: string)
    requires forall i | 0 <= i < |ledger| :: ledger[i].agent != agent
    ensures LedgerOf(ledger, agent) == 0.0
    decreases |ledger|
  {
    if ledger != [] { NoCharges(ledger[..|ledger| - 1], agent); }
  }

  lemma AllocateBalances(a: Accountant, agent: string, eps: F64)
    requires Balanced(a)
    ensures Balanced(Allocate(a, agent, eps).0)
  {
    hide Sum, LedgerSum, LedgerOf;
    if Allocate(a, agent, eps).1.Ok? {
      var consumed := if agent in a.agents then a.agents[agent].consumed else 0.0;
      SumUpdate(a.agents, ALLOCATED, agent, Budget(eps.v, consumed));
      SumUpdate(a.agents, CONSUMED, agent, Budget(eps.v, consumed));
      if agent !in a.agents { NoCharges(a.ledger, agent); }
    }
  }

  /** An allocation is accepted exactly when all allocations together then stay within the maximum. */
  lemma AllocateExact(a: Accountant, agent: string, eps: F64)
    ensures var (a', r) := Allocate(a, agent, eps);
            && (r.Ok? <==>
                && eps.Finite? && eps.v >= 0.0
                && Sum(a.agents[agent := Budget(eps.v, 0.0)], ALLOCATED) <= a.epsMax + TOLERANCE)
            && (r.Ok? ==>
                && agent in a'.agents && a'.agents[agent].granted == eps.v
                && a'.agents[agent].consumed == (if agent in a.agents then a.agents[agent].consumed else 0.0)
                && a'.agents - {agent} == a.agents - {agent}
                && a'.epsUsed == a.epsUsed && a'.ledger == a.ledger)
  {
    if eps.Finite? { SumUpdate(a.agents, ALLOCATED, agent, Budget(eps.v, 0.0)); }
  }

  /** A charge is accepted exactly when it is free or fits both budgets. */
  lemma ConsumeExact(a: Accountant, agent: string, s: Sensitivity, description: string)
    ensures Consume(a, agent, s, description).1.Ok? <==>
              || s.Public?
              || (&& agent in a.agents
                  && a.epsUsed + Cost(s) <= a.epsMax + TOLERANCE
                  && a.agents[agent].consumed + Cost(s) <= a.agents[agent].granted + TOLERANCE)
  {
  }

  lemma ConsumeBalances(a: Accountant, agent: string, s: Sensitivity, description: string)
    requires Balanced(a)
    ensures Balanced(Consume(a, agent, s, description).0)
  {
    hide Sum, LedgerSum, LedgerOf;
    var (a', r) := Consume(a, agent, s, description);
    if r.Ok? && Cost(s) != 0.0 {
      var c := Charge(agent, Cost(s), s, description);
      SumUpdate(a.agents, ALLOCATED, agent, a'.agents[agent]);
      SumUpdate(a.agents, CONSUMED, agent, a'.agents[agent]);
      forall other ensures LedgerOf(a'.ledger, other) == LedgerOf(a.ledger, other) + if agent == other then c.cost else 0.0 {
        LedgerAppend(a.ledger, c, other);
      }
      LedgerAppend(a.ledger, c, agent);
    }
  }

  /** In every run from a new accountant the books balance; the tolerance is spent at most once. */
  lemma {:induction false} BooksBalance(epsMax: F64, delta: F64, cs: seq<Call>)
    requires NewAccountant(epsMax, delta).Ok?
    ensures Balanced(Run(NewAccountant(epsMax, delta).value, cs))
    ensures Run(NewAccountant(epsMax, delta).value, cs).epsMax == epsMax.v
    decreases |cs|
  {
    var a := NewAccountant(epsMax, delta).value;
    if cs != [] {
      var front, c := cs[..|cs| - 1], cs[|cs| - 1];
      BooksBalance(epsMax, delta, front);
      match c
      case AllocateCall(agent, eps) => AllocateBalances(Run(a, front), agent, eps);
      case ConsumeCall(agent, s, description) => ConsumeBalances(Run(a, front), agent, s, description);
    }
  }

  /** The last allocation the agent was granted is below what it had been charged by then, less one tolerance. */
  ghost predicate Undercut(a: Accountant, cs: seq<Call>, agent: string) {
    if cs == [] then false
    else
      var front, c := cs[..|cs| - 1], cs[|cs| - 1];
      if c.AllocateCall? && c.agent == agent && Allocate(Run(a, front), agent, c.eps).1.Ok?
      then c.eps.v + TOLERANCE < LedgerOf(Run(a, front).ledger, agent)
      else Undercut(a, front, agent)
  }

  predicate Overspent(a: Accountant, agent: string) {
    agent in a.agents && a.agents[agent].consumed > a.agents[agent].granted + TOLERANCE
  }

  /** Only an allocation to the agent changes whether it has overspent. */
  lemma OverspentStep(a: Accountant, c: Call, agent: string)
    requires !(c.AllocateCall? && c.agent == agent && Allocate(a, agent, c.eps).1.Ok?)
    ensures Overspent(Step(a, c), agent) <==> Overspent(a, agent)
  {
    hide Sum;
  }

  lemma UncutAllocation(a: Accountant, agent: string, eps: F64)
    requires Balanced(a) && Allocate(a, agent, eps).1.Ok?
    ensures Overspent(Allocate(a, agent, eps).0, agent) <==> eps.v + TOLERANCE < LedgerOf(a.ledger, agent)
  {
    hide Sum, LedgerSum, LedgerOf;
    if agent !in a.agents { NoCharges(a.ledger, agent); }
  }

  /** In every run an agent is over its own budget exactly while its last allocation undercut its charges. */
  lemma {:induction false} OverspentExactly(epsMax: F64, delta: F64, cs: seq<Call>, agent: string)
    requires NewAccountant(epsMax, delta).Ok?
    ensures var a := NewAccountant(epsMax, delta).value;
            Overspent(Run(a, cs), agent) <==> Undercut(a, cs, agent)
    decreases |cs|
  {
    var a := NewAccountant(epsMax, delta).value;
    if cs != [] {
      var front, c := cs[..|cs| - 1], cs[|cs| - 1];
      OverspentExactly(epsMax, delta, front, agent);
      BooksBalance(epsMax, delta, front);
      hide Balanced, Allocate, Consume, Overspent, LedgerOf, NewAccountant;
      if c.AllocateCall? && c.agent == agent && Allocate(Run(a, front), agent, c.eps).1.Ok? {
        UncutAllocation(Run(a, front), agent, c.eps);
      } else {
        OverspentStep(Run(a, front), c, agent);
      }
    }
  }

  /** The ledger is append-only, and a denied call changes nothing. */
  lemma {:induction false} LedgerOnlyGrows(a: Accountant, cs: seq<Call>, k: nat)
    requires k <= |cs|
    ensures Run(a, cs[..k]).ledger <= Run(a, cs).ledger
    decreases |cs|
  {
    if k < |cs| {
      var n := |cs| - 1;
      LedgerOnlyGrows(a, cs[..n], k);
      assert cs[..n][..k] == cs[..k];
      StepGrows(Run(a, cs[..n]), cs[n]);
    } else {
      assert cs[..k] == cs;
    }
  }

  lemma StepGrows(a: Accountant, c: Call)
    ensures a.ledger <= Step(a, c).ledger
    ensures c.AllocateCall? && Allocate(a, c.agent, c.eps).1.Err? ==> Step(a, c) == a
    ensures c.ConsumeCall? && Consume(a, c.agent, c.s, c.description).1.Err? ==> Step(a, c) == a
  {
  }

  // ---- What the calls answer --------------------------------------------------

  /** The price list, and the tolerance of one unit in the last place of a double at one. */
  lemma Tariff()
    ensures Cost(Public) == 0.0 && Cost(Internal) == 0.1 && Cost(Personal) == 0.5
    ensures Cost(SensitivePersonal) == 1.0 && Cost(SpecialCategory) == 2.0
    ensures TOLERANCE * 67108864.0 * 67108864.0 == 1.0
  {
  }

  /** What is left, never below zero. */
  function Left(total: real, used: real): real { if total > used then total - used else 0.0 }

  /** A charge answers what the agent has left, or the first limit it would pass with the amounts as they stand. */
  lemma ChargeAnswers(a: Accountant, agent: string, s: Sensitivity, description: string)
    ensures
      var (a', r) := Consume(a, agent, s, description);
      var known := agent in a.agents;
      var cost := Cost(s);
      && (s == Public ==> a' == a && r == Ok(if known then Left(a.agents[agent].granted, a.agents[agent].consumed) else 0.0))
      && (s != Public && !known ==> a' == a && r == Err(AgentNotFound(agent)))
      && (s != Public && known && cost > a.epsMax - a.epsUsed + TOLERANCE ==>
            a' == a && r == Err(BudgetExhausted(cost, a.epsMax - a.epsUsed)))
      && (s != Public && known && cost <= a.epsMax - a.epsUsed + TOLERANCE ==>
            var rest := Left(a.agents[agent].granted, a.agents[agent].consumed);
            && (cost > rest + TOLERANCE ==> a' == a && r == Err(AgentBudgetExhausted(agent, cost, rest)))
            && (cost <= rest + TOLERANCE ==>
                  r == Ok(Left(a.agents[agent].granted, a.agents[agent].consumed + cost))))
  {
  }

  /** An allocation is refused for a negative or non-finite amount, else exactly for more than the others leave. */
  lemma AllocateAnswers(a: Accountant, agent: string, eps: F64)
    ensures
      var r := Allocate(a, agent, eps).1;
      var others := Sum(a.agents - {agent}, ALLOCATED);
      && (r == Err(InvalidEpsilon) <==> eps.NotFinite? || eps.v < 0.0)
      && (eps.Finite? && eps.v >= 0.0 ==>
            r == if eps.v > a.epsMax - others + TOLERANCE
                 then Err(AllocationExceedsSystem(eps.v, a.epsMax - others)) else Ok(()))
  {
    if agent in a.agents {
      SumRemove(a.agents, ALLOCATED, agent);
    } else {
      assert a.agents - {agent} == a.agents;
    }
  }

  lemma CreateAnswers(epsMax: F64, delta: F64)
    ensures NewAccountant(epsMax, delta) ==
              if epsMax.Finite? && epsMax.v >= 0.0 && delta.Finite? && delta.v >= 0.0
              then Ok(Accountant(epsMax.v, 0.0, delta.v, map[], [])) else Err(InvalidEpsilon)
  {
  }

  // ---- Pre-flight -------------------------------------------------------------

  predicate SameKind(d: Denial, e: Denial) {
    match d
    case BudgetExhausted(_, _) => e.BudgetExhausted?
    case AgentNotFound(_) => e.AgentNotFound?
    case AgentBudgetExhausted(_, _, _) => e.AgentBudgetExhausted?
    case AllocationExceedsSystem(_, _) => e.AllocationExceedsSystem?
    case InvalidEpsilon => e.InvalidEpsilon?
  }

  /**
   From every accountant state, balanced or not, the check gives the verdict and the kind of
   denial that the charge itself would. The denials are equal unless the system remainder is
   negative, when only the reported remainder differs.
   */
  lemma PreFlightAgrees(a: Accountant, agent: string, s: Sensitivity, description: string)
    ensures PreFlight(a, agent, s).Ok? <==> Consume(a, agent, s, description).1.Ok?
    ensures PreFlight(a, agent, s).Err? ==> SameKind(PreFlight(a, agent, s).error, Consume(a, agent, s, description).1.error)
    ensures PreFlight(a, agent, s).Err? ==>
              (PreFlight(a, agent, s).error == Consume(a, agent, s, description).1.error
               <==> !(PreFlight(a, agent, s).error.BudgetExhausted? && a.epsUsed > a.epsMax))
  {
  }

  /** A passed check followed by the charge moves exactly the cost, on both books, past neither limit. */
  lemma CheckedChargeMovesCost(a: Accountant, agent: string, s: Sensitivity, description: string)
    requires PreFlight(a, agent, s).Ok? && s != Public
    ensures var a' := Consume(a, agent, s, description).0;
            && agent in a.agents && agent in a'.agents
            && a'.epsUsed - a.epsUsed == Cost(s) == a'.agents[agent].consumed - a.agents[agent].consumed
            && a'.epsUsed <= a'.epsMax + TOLERANCE
            && a'.agents[agent].consumed <= a'.agents[agent].granted + TOLERANCE
            && a'.ledger == a.ledger + [Charge(agent, Cost(s), s, description)]
            && (forall other | other in a.agents && other != agent :: other in a'.agents && a'.agents[other] == a.agents[other])
  {
    PreFlightAgrees(a, agent, s, description);
  }
}
