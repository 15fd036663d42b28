/**
 The container engine under concurrency.

 Every lock section, hypervisor call and counter increment of `provision`, `run`, `resume`,
 `suspend`, `snapshot` and `terminate` is one event. A run is any sequence of events of any
 number of threads; an event whose thread is not at that point changes nothing. The hypervisor
 hands out fresh VM handles; every other outcome of a hypervisor call is possible.
 */
module Engine {
  import opened Base
  import opened Containers

  type Thread = nat

  /** Where a thread stands between two events. */
  datatype Pc =
    | Created(vm: Vm)                                // provision: after create_vm
    | MemorySet(vm: Vm)                              // provision: after set_memory
    | HasId(vm: Vm, id: Id)                          // provision: after alloc_id
    | Entered(id: Id)                                // run/resume: after the first lock section
    | HasHandle(id: Id, vm: Vm)                      // run_guest: handle cloned
    | Looping(id: Id, exits: seq<Exit>, bytes: Bytes) // run_guest: in the vCPU loop
    | Halted(id: Id, exits: seq<Exit>, bytes: Bytes) // run_guest: before the write-back
    | Claiming(id: Id, taken: Option<Vm>)            // terminate: handle taken
    | Finishing(id: Id)                              // terminate: destroy_vm returned

  datatype Event =
    | CreateVm(t: Thread, vm: Vm)
    | SetMemory(t: Thread, ok: bool)
    | AllocId(t: Thread)
    | Insert(t: Thread)
    | Enter(t: Thread, id: Id)
    | GetHandle(t: Thread)
    | CreateVcpu(t: Thread, ok: bool)
    | RunVcpu(t: Thread, exit: Exit)
    | WriteBack(t: Thread)
    | Suspend(t: Thread, id: Id)
    | Snapshot(t: Thread, id: Id)
    | Claim(t: Thread, id: Id)
    | DestroyVm(t: Thread, ok: bool)
    | Finish(t: Thread)

  /**
   The engine plus what an observer of the hypervisor has seen: VMs created, `destroy_vm` calls
   in order, VMs dropped after a failed `set_memory`, ids handed out, and guest runs completed
   in order.
   */
  datatype Sys = Sys(store: Store, threads: map<Thread, Pc>, created: set<Vm>, destroyCalls: seq<Vm>,
                     abandoned: set<Vm>, allocs: nat, runs: seq<(Id, seq<Exit>)>)

  const INIT := Sys(Store(map[], 1), map[], {}, [], {}, 0, [])

  predicate At(s: Sys, t: Thread, p: Pc) { t in s.threads && s.threads[t] == p }

  function Put(s: Sys, t: Thread, p: Pc): Sys { s.(threads := s.threads[t := p]) }

  function Leave(s: Sys, t: Thread): Sys { s.(threads := s.threads - {t}) }

  function Provision(s: Sys, e: Event): Sys {
    match e
    case CreateVm(t, vm) =>
      if t in s.threads || vm in s.created then s else Put(s.(created := s.created + {vm}), t, Created(vm))
    case SetMemory(t, ok) =>
      if t !in s.threads || !s.threads[t].Created? then s
      else if ok then Put(s, t, MemorySet(s.threads[t].vm))
      else Leave(s.(abandoned := s.abandoned + {s.threads[t].vm}), t)
    case AllocId(t) =>
      if t !in s.threads || !s.threads[t].MemorySet? then s
      else
        var (st, id) := Numbered(s.store);
        Put(s.(store := st, allocs := s.allocs + 1), t, HasId(s.threads[t].vm, id))
    case Insert(t) =>
      if t !in s.threads || !s.threads[t].HasId? then s
      else Leave(s.(store := Inserted(s.store, s.threads[t].id, s.threads[t].vm)), t)
    case _ => s
  }

  function RunStep(s: Sys, e: Event): Sys {
    match e
    case Enter(t, id) =>
      if t in s.threads then s
      else (match Moved(s.store, id, Running) case Err(_) => s case Ok(st) => Put(s.(store := st), t, Entered(id)))
    case GetHandle(t) =>
      if t !in s.threads || !s.threads[t].Entered? then s
      else
        var id := s.threads[t].id;
        (match Handle(s.store, id) case Err(_) => Leave(s, t) case Ok(vm) => Put(s, t, HasHandle(id, vm)))
    case CreateVcpu(t, ok) =>
      if t !in s.threads || !s.threads[t].HasHandle? then s
      else if ok then Put(s, t, Looping(s.threads[t].id, [], [])) else Leave(s, t)
    case RunVcpu(t, exit) =>
      if t !in s.threads || !s.threads[t].Looping? then s
      else
        var p := s.threads[t];
        if exit.Halt? || exit.Shutdown? then Put(s, t, Halted(p.id, p.exits, p.bytes))
        else if exit.InternalError? || exit.RunFailed? then Leave(s, t)
        else Put(s, t, Looping(p.id, p.exits + [exit], p.bytes + Serial(exit)))
    case WriteBack(t) =>
      if t !in s.threads || !s.threads[t].Halted? then s
      else
        var p := s.threads[t];
        (match Appended(s.store, p.id, p.bytes)
         case Err(_) => Leave(s, t)
         case Ok(st) => Leave(s.(store := st, runs := s.runs + [(p.id, p.exits)]), t))
    case _ => s
  }

  function ControlStep(s: Sys, e: Event): Sys {
    match e
    case Suspend(t, id) => (match Moved(s.store, id, Suspended) case Err(_) => s case Ok(st) => s.(store := st))
    case Snapshot(t, id) => (match Moved(s.store, id, Snapshotted) case Err(_) => s case Ok(st) => s.(store := st))
    case Claim(t, id) =>
      if t in s.threads then s
      else (match Claimed(s.store, id)
            case Err(_) => s
            case Ok((st, vm)) => Put(s.(store := st), t, Claiming(id, vm)))
    case DestroyVm(t, ok) =>
      if t !in s.threads || !s.threads[t].Claiming? then s
      else
        var p := s.threads[t];
        Put(if p.taken.Some? then s.(destroyCalls := s.destroyCalls + [p.taken.value]) else s, t, Finishing(p.id))
    case Finish(t) =>
      if t !in s.threads || !s.threads[t].Finishing? then s
      else (match Moved(s.store, s.threads[t].id, Terminated)
            case Err(_) => Leave(s, t)
            case Ok(st) => Leave(s.(store := st), t))
    case _ => s
  }

  function Next(s: Sys, e: Event): Sys {
    if e.CreateVm? || e.SetMemory? || e.AllocId? || e.Insert? then Provision(s, e)
    else if e.Enter? || e.GetHandle? || e.CreateVcpu? || e.RunVcpu? || e.WriteBack? then RunStep(s, e)
    else ControlStep(s, e)
  }

  function Run(s: Sys, es: seq<Event>): Sys {
    if es == [] then s else Next(Run(s, es[..|es| - 1]), es[|es| - 1])
  }

  // ---- Identifiers ------------------------------------------------------------

  /** As many ids as the counter can hand out before it returns to the reserved zero. */
  const MAX_IDS := TWO_64 - 1

  /** The k-th id handed out. */
  function IdAt(k: nat): Id { (1 + k) % TWO_64 }

  /** One of the first `n` ids handed out. */
  predicate Taken(id: Id, n: nat) { 1 <= id <= n || (id == 0 && n > MAX_IDS) }

  /** Ids in use are among those handed out, and an id still in flight is in nobody else's hands. */
  ghost predicate InvIds(s: Sys) {
    && s.store.nextId == IdAt(s.allocs)
    && (forall id | id in s.store.containers :: Taken(id, s.allocs))
    && (forall t | t in s.threads && s.threads[t].HasId? ::
          Taken(s.threads[t].id, s.allocs) && s.threads[t].id !in s.store.containers)
    && (forall t, u | t in s.threads && u in s.threads && s.threads[t].HasId? && s.threads[u].HasId?
                      && s.threads[t].id == s.threads[u].id :: t == u)
  }

  lemma NextNumber(s: Sys)
    requires InvIds(s) && s.allocs < TWO_64
    ensures Numbered(s.store) == (s.store.(nextId := IdAt(s.allocs + 1)), IdAt(s.allocs))
    ensures !Taken(IdAt(s.allocs), s.allocs) && Taken(IdAt(s.allocs), s.allocs + 1)
    ensures forall id | Taken(id, s.allocs) :: Taken(id, s.allocs + 1)
  {
  }

  lemma IdsAlloc(s: Sys, t: Thread)
    requires InvIds(s) && t in s.threads && s.threads[t].MemorySet? && s.allocs < TWO_64
    ensures InvIds(Provision(s, AllocId(t)))
  {
    hide Numbered, Taken, IdAt;
    NextNumber(s);
  }

  lemma IdsProvision(s: Sys, e: Event)
    requires InvIds(s) && Provision(s, e).allocs <= TWO_64
    ensures InvIds(Provision(s, e))
  {
    if e.AllocId? && e.t in s.threads && s.threads[e.t].MemorySet? { IdsAlloc(s, e.t); }
  }

  lemma KeysRun(s: Sys, e: Event)
    ensures RunStep(s, e).store.containers.Keys == s.store.containers.Keys
    ensures RunStep(s, e).store.nextId == s.store.nextId && RunStep(s, e).allocs == s.allocs
    ensures forall t | t in RunStep(s, e).threads && RunStep(s, e).threads[t].HasId? :: At(s, t, RunStep(s, e).threads[t])
  {
  }

  lemma KeysControl(s: Sys, e: Event)
    ensures ControlStep(s, e).store.containers.Keys == s.store.containers.Keys
    ensures ControlStep(s, e).store.nextId == s.store.nextId && ControlStep(s, e).allocs == s.allocs
    ensures forall t | t in ControlStep(s, e).threads && ControlStep(s, e).threads[t].HasId? ::
              At(s, t, ControlStep(s, e).threads[t])
  {
  }

  lemma IdsStep(s: Sys, e: Event)
    requires InvIds(s) && Next(s, e).allocs <= TWO_64
    ensures InvIds(Next(s, e))
  {
    hide Provision, RunStep, ControlStep;
    if e.CreateVm? || e.SetMemory? || e.AllocId? || e.Insert? {
      IdsProvision(s, e);
    } else {
      KeysRun(s, e);
      KeysControl(s, e);
      var s' := Next(s, e);
      assert forall id :: id in s'.store.containers <==> id in s.store.containers.Keys;
    }
  }

  ghost predicate FirstIdsDistinct(n: nat) {
    && (forall i | 0 <= i < n :: IdAt(i) != 0)
    && (forall i, j | 0 <= i < j < n :: IdAt(i) != IdAt(j))
  }

  lemma FirstIdsExactly(n: nat)
    ensures FirstIdsDistinct(n) <==> n <= MAX_IDS
  {
    if n > MAX_IDS {
      assert IdAt(MAX_IDS) == 0;
    } else {
      assert forall i | 0 <= i < n :: IdAt(i) == 1 + i;
    }
  }

  /** The event takes an id from the counter. */
  predicate Allocates(s: Sys, e: Event) { e.AllocId? && e.t in s.threads && s.threads[e.t].MemorySet? }

  /** The ids the provisions of a run were given, in order. */
  function HandedOut(es: seq<Event>): seq<Id> {
    if es == [] then []
    else
      var s, e := Run(INIT, es[..|es| - 1]), es[|es| - 1];
      HandedOut(es[..|es| - 1]) + if Allocates(s, e) then [Next(s, e).threads[e.t].id] else []
  }

  lemma CounterStep(s: Sys, e: Event)
    requires s.store.nextId == IdAt(s.allocs)
    ensures Next(s, e).store.nextId == IdAt(Next(s, e).allocs)
    ensures Next(s, e).allocs == s.allocs + if Allocates(s, e) then 1 else 0
    ensures Allocates(s, e) ==> At(Next(s, e), e.t, HasId(s.threads[e.t].vm, IdAt(s.allocs)))
  {
    KeysRun(s, e);
    KeysControl(s, e);
    if Allocates(s, e) { NextCounted(s, e.t); }
    hide RunStep, ControlStep, Numbered, IdAt;
  }

  lemma NextCounted(s: Sys, t: Thread)
    requires s.store.nextId == IdAt(s.allocs) && Allocates(s, AllocId(t))
    ensures var s' := Provision(s, AllocId(t));
            && s'.store.nextId == IdAt(s'.allocs) && s'.allocs == s.allocs + 1
            && At(s', t, HasId(s.threads[t].vm, IdAt(s.allocs)))
  {
  }

  /** In every run, of any length, the counter and the ids handed out follow from how many were taken. */
  lemma {:induction false} CounterAlways(es: seq<Event>)
    ensures Run(INIT, es).store.nextId == IdAt(Run(INIT, es).allocs)
    ensures |HandedOut(es)| == Run(INIT, es).allocs
    ensures forall i | 0 <= i < |HandedOut(es)| :: HandedOut(es)[i] == IdAt(i)
    decreases |es|
  {
    if es != [] {
      hide Next, Allocates, IdAt;
      CounterAlways(es[..|es| - 1]);
      CounterStep(Run(INIT, es[..|es| - 1]), es[|es| - 1]);
    } else {
      assert IdAt(0) == 1;
    }
  }

  ghost predicate DistinctNonZero(ids: seq<Id>) {
    && (forall i | 0 <= i < |ids| :: ids[i] != 0)
    && (forall i, j | 0 <= i < j < |ids| :: ids[i] != ids[j])
  }

  /** The ids a run hands out are non-zero and pairwise distinct exactly while it takes at most 2^64 - 1 of them. */
  lemma IdsDistinctExactly(es: seq<Event>)
    ensures DistinctNonZero(HandedOut(es)) <==> Run(INIT, es).allocs <= MAX_IDS
  {
    hide Run, HandedOut, IdAt;
    CounterAlways(es);
    FirstIdsExactly(|HandedOut(es)|);
    var ids := HandedOut(es);
    if DistinctNonZero(ids) {
      assert forall i | 0 <= i < |ids| :: IdAt(i) == ids[i];
    }
  }

  function ProvisionRound(vm: Vm): seq<Event> { [CreateVm(0, vm), SetMemory(0, true), AllocId(0), Insert(0)] }

  lemma RunSnoc(s: Sys, es: seq<Event>, e: Event)
    ensures Run(s, es + [e]) == Next(Run(s, es), e)
  {
    hide Next;
    assert (es + [e])[..|es|] == es;
  }

  lemma RunRound(s: Sys, es: seq<Event>, vm: Vm)
    requires Run(s, es).threads == map[] && vm !in Run(s, es).created
    ensures var s', w := Run(s, es + ProvisionRound(vm)), Run(s, es);
            && s'.threads == map[] && s'.allocs == w.allocs + 1 && s'.created == w.created + {vm}
            && s'.store.containers == w.store.containers[w.store.nextId := Container(Provisioning, Some(vm), [])]
  {
    var r := ProvisionRound(vm);
    assert es + r == es + [r[0]] + [r[1]] + [r[2]] + [r[3]];
    RunSnoc(s, es, r[0]);
    RunSnoc(s, es + [r[0]], r[1]);
    RunSnoc(s, es + [r[0]] + [r[1]], r[2]);
    RunSnoc(s, es + [r[0]] + [r[1]] + [r[2]], r[3]);
    hide Run;
    RoundEffect(Run(s, es), vm);
  }

  lemma RoundEffect(s: Sys, vm: Vm)
    requires s.threads == map[] && vm !in s.created
    ensures var r := ProvisionRound(vm);
            var s' := Next(Next(Next(Next(s, r[0]), r[1]), r[2]), r[3]);
            && s'.threads == map[] && s'.allocs == s.allocs + 1 && s'.created == s.created + {vm}
            && s'.store.containers == s.store.containers[s.store.nextId := Container(Provisioning, Some(vm), [])]
  {
  }

  /** Runs with any number of provisions exist, so ids do run out. */
  lemma {:induction false} AnyNumberOfIds(n: nat) returns (es: seq<Event>)
    ensures Run(INIT, es).allocs == n && Run(INIT, es).threads == map[]
    ensures forall vm | vm in Run(INIT, es).created :: vm < n
    ensures n > 0 ==> 1 in Run(INIT, es).store.containers && Run(INIT, es).store.containers[1].vm.Some?
  {
    es := [];
    if n > 0 {
      hide Run, ProvisionRound;
      var front := AnyNumberOfIds(n - 1);
      es := front + ProvisionRound(n - 1);
      RunRound(INIT, front, n - 1);
      FirstStays(front, Run(INIT, es), n - 1);
    }
  }

  /** One more provision keeps a container under the first id, or puts it there. */
  lemma FirstStays(front: seq<Event>, s: Sys, vm: Vm)
    requires var w := Run(INIT, front);
             && s.store.containers == w.store.containers[w.store.nextId := Container(Provisioning, Some(vm), [])]
             && (w.allocs > 0 ==> 1 in w.store.containers && w.store.containers[1].vm.Some?)
    ensures 1 in s.store.containers && s.store.containers[1].vm.Some?
  {
    CounterAlways(front);
    assert IdAt(0) == 1;
    hide Run, HandedOut, IdAt;
  }

  // ---- Where every VM is ------------------------------------------------------

  datatype Place =
    | InContainer(id: Id)
    | InProvision(t: Thread)
    | InTerminate(t: Thread)
    | DestroyCall(index: nat)
    | Abandoned

  predicate Provisioner(p: Pc) { p.Created? || p.MemorySet? || p.HasId? }

  predicate Holds(s: Sys, vm: Vm, p: Place) {
    match p
    case InContainer(id) => id in s.store.containers && s.store.containers[id].vm == Some(vm)
    case InProvision(t) => t in s.threads && Provisioner(s.threads[t]) && s.threads[t].vm == vm
    case InTerminate(t) => t in s.threads && s.threads[t].Claiming? && s.threads[t].taken == Some(vm)
    case DestroyCall(i) => i < |s.destroyCalls| && s.destroyCalls[i] == vm
    case Abandoned => vm in s.abandoned
  }

  /** `w` names a place of every VM ever created, and no VM is anywhere else. */
  ghost predicate Located(s: Sys, w: map<Vm, Place>) {
    && w.Keys == s.created
    && forall vm, p | Holds(s, vm, p) :: vm in w && w[vm] == p
  }

  /** Every VM is where `w` says. */
  ghost predicate Held(s: Sys, w: map<Vm, Place>) { forall vm | vm in w :: Holds(s, vm, w[vm]) }

  /** The event puts a new container in the place of one that has a VM. */
  predicate Replaces(s: Sys, e: Event) {
    && e.Insert? && e.t in s.threads && s.threads[e.t].HasId?
    && s.threads[e.t].id in s.store.containers && s.store.containers[s.threads[e.t].id].vm.Some?
  }

  /** How an event moves a VM. */
  function Track(s: Sys, e: Event, w: map<Vm, Place>): map<Vm, Place> {
    match e
    case CreateVm(t, vm) => if t in s.threads || vm in s.created then w else w[vm := InProvision(t)]
    case SetMemory(t, ok) =>
      if t in s.threads && s.threads[t].Created? && !ok then w[s.threads[t].vm := Abandoned] else w
    case Insert(t) =>
      if t in s.threads && s.threads[t].HasId? then w[s.threads[t].vm := InContainer(s.threads[t].id)] else w
    case Claim(t, id) =>
      if t !in s.threads && Claimed(s.store, id).Ok? && s.store.containers[id].vm.Some?
      then w[s.store.containers[id].vm.value := InTerminate(t)] else w
    case DestroyVm(t, ok) =>
      if t in s.threads && s.threads[t].Claiming? && s.threads[t].taken.Some?
      then w[s.threads[t].taken.value := DestroyCall(|s.destroyCalls|)] else w
    case _ => w
  }

  predicate Provisions(e: Event) { e.CreateVm? || e.SetMemory? || e.AllocId? || e.Insert? }

  lemma LocatedProvision(s: Sys, e: Event, w: map<Vm, Place>)
    requires Located(s, w) && Provisions(e)
    ensures Located(Provision(s, e), Track(s, e, w))
  {
    var s', w' := Provision(s, e), Track(s, e, w);
    if e.t in s.threads && Provisioner(s.threads[e.t]) { assert Holds(s, s.threads[e.t].vm, InProvision(e.t)); }
    forall vm, p | Holds(s', vm, p) ensures vm in w' && w'[vm] == p {
      if Holds(s, vm, p) { assert w[vm] == p; }
    }
  }

  lemma HeldProvision(s: Sys, e: Event, w: map<Vm, Place>)
    requires Located(s, w) && Held(s, w) && Provisions(e) && !Replaces(s, e)
    ensures Held(Provision(s, e), Track(s, e, w))
  {
    var s', w' := Provision(s, e), Track(s, e, w);
    if e.t in s.threads && Provisioner(s.threads[e.t]) { assert Holds(s, s.threads[e.t].vm, InProvision(e.t)); }
    forall vm | vm in w' ensures Holds(s', vm, w'[vm]) {
      if vm in w { assert Holds(s, vm, w[vm]); }
    }
  }

  /** Running a guest moves no VM. */
  lemma TrackRun(s: Sys, e: Event)
    ensures forall vm, p :: Holds(RunStep(s, e), vm, p) <==> Holds(s, vm, p)
    ensures RunStep(s, e).created == s.created
  {
  }

  lemma TrackClaim(s: Sys, e: Event, w: map<Vm, Place>)
    requires Located(s, w) && e.Claim?
    ensures Located(ControlStep(s, e), Track(s, e, w))
    ensures Held(s, w) ==> Held(ControlStep(s, e), Track(s, e, w))
  {
    var s', w' := ControlStep(s, e), Track(s, e, w);
    if e.id in s.store.containers && s.store.containers[e.id].vm.Some? {
      assert Holds(s, s.store.containers[e.id].vm.value, InContainer(e.id));
    }
    forall vm, p | Holds(s', vm, p) ensures vm in w' && w'[vm] == p {
      if Holds(s, vm, p) { assert w[vm] == p; }
    }
    if Held(s, w) {
      forall vm | vm in w' ensures Holds(s', vm, w'[vm]) {
        assert Holds(s, vm, w[vm]);
      }
    }
  }

  lemma TrackDestroy(s: Sys, e: Event, w: map<Vm, Place>)
    requires Located(s, w) && e.DestroyVm?
    ensures Located(ControlStep(s, e), Track(s, e, w))
    ensures Held(s, w) ==> Held(ControlStep(s, e), Track(s, e, w))
  {
    var s', w' := ControlStep(s, e), Track(s, e, w);
    if e.t in s.threads && s.threads[e.t].Claiming? && s.threads[e.t].taken.Some? {
      assert Holds(s, s.threads[e.t].taken.value, InTerminate(e.t));
    }
    forall vm, p | Holds(s', vm, p) ensures vm in w' && w'[vm] == p {
      if Holds(s, vm, p) { assert w[vm] == p; }
    }
    if Held(s, w) {
      forall vm | vm in w' ensures Holds(s', vm, w'[vm]) {
        assert Holds(s, vm, w[vm]);
      }
    }
  }

  /** Pausing, snapshotting and finishing a termination move no VM. */
  lemma TrackMoves(s: Sys, e: Event)
    requires e.Suspend? || e.Snapshot? || e.Finish?
    ensures forall vm, p :: Holds(ControlStep(s, e), vm, p) <==> Holds(s, vm, p)
    ensures ControlStep(s, e).created == s.created
  {
  }

  /** No event puts a VM in a second place, and only replacing a container with a VM takes one out of its place. */
  lemma TrackNext(s: Sys, e: Event, w: map<Vm, Place>)
    requires Located(s, w)
    ensures Located(Next(s, e), Track(s, e, w))
    ensures Held(s, w) && !Replaces(s, e) ==> Held(Next(s, e), Track(s, e, w))
  {
    hide Provision, RunStep, ControlStep, Holds, Replaces;
    if Provisions(e) {
      LocatedProvision(s, e, w);
      if Held(s, w) && !Replaces(s, e) { HeldProvision(s, e, w); }
    } else if e.Claim? {
      TrackClaim(s, e, w);
    } else if e.DestroyVm? {
      TrackDestroy(s, e, w);
    } else if e.Suspend? || e.Snapshot? || e.Finish? {
      TrackMoves(s, e);
    } else {
      TrackRun(s, e);
    }
  }

  /** The places of the VMs of a run. */
  function Where(es: seq<Event>): map<Vm, Place> {
    if es == [] then map[]
    else Track(Run(INIT, es[..|es| - 1]), es[|es| - 1], Where(es[..|es| - 1]))
  }

  ghost predicate NothingReplaced(es: seq<Event>) {
    forall i | 0 <= i < |es| :: !Replaces(Run(INIT, es[..i]), es[i])
  }

  lemma NothingReplacedSnoc(front: seq<Event>, e: Event)
    ensures NothingReplaced(front + [e]) <==> NothingReplaced(front) && !Replaces(Run(INIT, front), e)
  {
    hide Run, Replaces;
    var es := front + [e];
    assert es[..|front|] == front && es[|front|] == e;
    assert forall i | 0 <= i < |front| :: es[..i] == front[..i] && es[i] == front[i];
  }

  /** Created once and in no place any more. */
  ghost predicate Lost(s: Sys, vm: Vm) { vm in s.created && forall p :: !Holds(s, vm, p) }

  lemma ReplacingLoses(s: Sys, e: Event, w: map<Vm, Place>)
    requires Located(s, w) && Replaces(s, e)
    ensures Lost(Next(s, e), s.store.containers[s.threads[e.t].id].vm.value)
  {
    var id := s.threads[e.t].id;
    var vm := s.store.containers[id].vm.value;
    assert Holds(s, vm, InContainer(id)) && Holds(s, s.threads[e.t].vm, InProvision(e.t));
    forall p ensures !Holds(Next(s, e), vm, p) {
      if Holds(s, vm, p) { assert p == InContainer(id); }
    }
  }

  lemma LostProvision(s: Sys, e: Event, vm: Vm)
    requires Lost(s, vm) && Provisions(e)
    ensures Lost(Provision(s, e), vm)
  {
    forall p ensures !Holds(Provision(s, e), vm, p) {
      assert !Holds(s, vm, p);
      assert !Holds(s, vm, InProvision(e.t));
    }
  }

  lemma LostControl(s: Sys, e: Event, vm: Vm)
    requires Lost(s, vm) && (e.Claim? || e.DestroyVm?)
    ensures Lost(ControlStep(s, e), vm)
  {
    forall p ensures !Holds(ControlStep(s, e), vm, p) {
      assert !Holds(s, vm, p);
      assert !Holds(s, vm, InTerminate(e.t));
      if e.Claim? { assert !Holds(s, vm, InContainer(e.id)); }
    }
  }

  lemma LostStep(s: Sys, e: Event, vm: Vm)
    requires Lost(s, vm)
    ensures Lost(Next(s, e), vm)
  {
    hide Provision, RunStep, ControlStep, Holds;
    if Provisions(e) {
      LostProvision(s, e, vm);
    } else if e.Claim? || e.DestroyVm? {
      LostControl(s, e, vm);
    } else if e.Suspend? || e.Snapshot? || e.Finish? {
      TrackMoves(s, e);
    } else {
      TrackRun(s, e);
    }
  }

  /** A VM whose container was replaced is never in any place again. */
  lemma {:induction false} LostForever(s: Sys, es: seq<Event>, vm: Vm)
    requires Lost(s, vm)
    ensures Lost(Run(s, es), vm)
    decreases |es|
  {
    hide Next, Lost;
    if es != [] {
      LostForever(s, es[..|es| - 1], vm);
      LostStep(Run(s, es[..|es| - 1]), es[|es| - 1], vm);
    }
  }

  /** In every run the places are as tracked; VMs are missing exactly after a replacement. */
  lemma {:induction false} PlacesAlways(es: seq<Event>)
    ensures Located(Run(INIT, es), Where(es))
    ensures NothingReplaced(es) ==> Held(Run(INIT, es), Where(es))
    ensures !NothingReplaced(es) ==> exists vm :: Lost(Run(INIT, es), vm)
    decreases |es|
  {
    if es != [] {
      var front, e := es[..|es| - 1], es[|es| - 1];
      var s := Run(INIT, front);
      assert Run(INIT, es) == Next(s, e) && Where(es) == Track(s, e, Where(front)) && es == front + [e];
      hide Run, Where, Next, Track, Located, Held, Lost, NothingReplaced;
      PlacesAlways(front);
      NothingReplacedSnoc(front, e);
      TrackNext(s, e, Where(front));
      if !NothingReplaced(front) {
        var vm :| Lost(s, vm);
        LostStep(s, e, vm);
      } else if Replaces(s, e) {
        ReplacingLoses(s, e, Where(front));
      }
    }
  }

  // ---- Lifecycle and termination ----------------------------------------------

  predicate Ending(l: Lifecycle) { l.Terminating? || l.Terminated? }

  /** A container has a VM handle exactly while it is neither Terminating nor Terminated. */
  ghost predicate InvHandle(s: Sys) {
    forall id | id in s.store.containers ::
      && (s.store.containers[id].vm.Some? <==> !Ending(s.store.containers[id].lifecycle))
      && !s.store.containers[id].lifecycle.Pending?
  }

  predicate Terminator(p: Pc) { p.Claiming? || p.Finishing? }

  /** A container is Terminating exactly while one thread is terminating it, and that thread took its VM. */
  ghost predicate InvTerm(s: Sys) {
    && (forall t | t in s.threads && Terminator(s.threads[t]) ::
          && s.threads[t].id in s.store.containers
          && s.store.containers[s.threads[t].id].lifecycle.Terminating?
          && (s.threads[t].Claiming? ==> s.threads[t].taken.Some?))
    && (forall t, u | t in s.threads && u in s.threads && Terminator(s.threads[t]) && Terminator(s.threads[u])
                      && s.threads[t].id == s.threads[u].id :: t == u)
    && (forall id | id in s.store.containers && s.store.containers[id].lifecycle.Terminating? ::
          exists t :: t in s.threads && Terminator(s.threads[t]) && s.threads[t].id == id)
  }

  /** A thread of `t` keeps being the terminator of `id`. */
  predicate Ends(s: Sys, t: Thread, id: Id) { t in s.threads && Terminator(s.threads[t]) && s.threads[t].id == id }

  lemma HandleStep(s: Sys, e: Event)
    requires InvHandle(s)
    ensures InvHandle(Next(s, e))
  {
  }

  /** Neither the terminating threads nor the Terminating containers differ. */
  ghost predicate SameEndings(s: Sys, s': Sys) {
    && (forall t, id :: Ends(s', t, id) <==> Ends(s, t, id))
    && (forall t | t in s'.threads && s'.threads[t].Claiming? :: At(s, t, s'.threads[t]))
    && s.store.containers.Keys <= s'.store.containers.Keys
    && (forall id | id in s'.store.containers ::
          s'.store.containers[id].lifecycle.Terminating? <==>
          id in s.store.containers && s.store.containers[id].lifecycle.Terminating?)
  }

  lemma TermFrame(s: Sys, s': Sys)
    requires InvTerm(s) && SameEndings(s, s')
    ensures InvTerm(s')
  {
    forall t | t in s'.threads && Terminator(s'.threads[t]) ensures Ends(s, t, s'.threads[t].id) {
      assert Ends(s', t, s'.threads[t].id);
    }
    forall id | id in s'.store.containers && s'.store.containers[id].lifecycle.Terminating?
      ensures exists t :: t in s'.threads && Terminator(s'.threads[t]) && s'.threads[t].id == id
    {
      var t :| t in s.threads && Terminator(s.threads[t]) && s.threads[t].id == id;
      assert Ends(s, t, id) && Ends(s', t, id);
    }
  }

  lemma EndingsInsert(s: Sys, e: Event)
    requires InvIds(s) && e.Insert?
    ensures SameEndings(s, Provision(s, e))
  {
  }

  lemma EndingsProvision(s: Sys, e: Event)
    requires !e.Insert?
    ensures SameEndings(s, Provision(s, e))
  {
  }

  lemma EndingsRun(s: Sys, e: Event)
    ensures SameEndings(s, RunStep(s, e))
  {
  }

  lemma TermProvision(s: Sys, e: Event)
    requires InvTerm(s) && InvIds(s)
    ensures InvTerm(Provision(s, e))
  {
    hide InvTerm, InvIds, Provision, SameEndings;
    if e.Insert? { EndingsInsert(s, e); } else { EndingsProvision(s, e); }
    TermFrame(s, Provision(s, e));
  }

  lemma TermRun(s: Sys, e: Event)
    requires InvTerm(s)
    ensures InvTerm(RunStep(s, e))
  {
    hide InvTerm, RunStep, SameEndings;
    EndingsRun(s, e);
    TermFrame(s, RunStep(s, e));
  }

  lemma TermPause(s: Sys, e: Event)
    requires InvTerm(s) && (e.Suspend? || e.Snapshot?)
    ensures InvTerm(ControlStep(s, e))
  {
    TermFrame(s, ControlStep(s, e));
  }

  lemma TermClaim(s: Sys, e: Event)
    requires InvTerm(s) && InvHandle(s) && e.Claim?
    ensures InvTerm(ControlStep(s, e))
  {
    var s' := ControlStep(s, e);
    forall id | id in s'.store.containers && s'.store.containers[id].lifecycle.Terminating?
      ensures exists t :: t in s'.threads && Terminator(s'.threads[t]) && s'.threads[t].id == id
    {
      if id in s.store.containers && s.store.containers[id].lifecycle.Terminating? {
        var t :| t in s.threads && Terminator(s.threads[t]) && s.threads[t].id == id;
        assert t in s'.threads && s'.threads[t] == s.threads[t];
      } else {
        assert e.t in s'.threads && s'.threads[e.t].id == id;
      }
    }
  }

  lemma TermDestroy(s: Sys, e: Event)
    requires InvTerm(s) && e.DestroyVm?
    ensures InvTerm(ControlStep(s, e))
  {
    var s' := ControlStep(s, e);
    forall t, id ensures Ends(s', t, id) <==> Ends(s, t, id) {
    }
    TermFrame(s, s');
  }

  lemma TermFinish(s: Sys, e: Event)
    requires InvTerm(s) && e.Finish?
    ensures InvTerm(ControlStep(s, e))
  {
    var s' := ControlStep(s, e);
    forall id | id in s'.store.containers && s'.store.containers[id].lifecycle.Terminating?
      ensures exists t :: t in s'.threads && Terminator(s'.threads[t]) && s'.threads[t].id == id
    {
      var t :| t in s.threads && Terminator(s.threads[t]) && s.threads[t].id == id;
      assert t in s'.threads && s'.threads[t] == s.threads[t];
    }
  }

  lemma TermStep(s: Sys, e: Event)
    requires InvTerm(s) && InvHandle(s) && InvIds(s)
    ensures InvTerm(Next(s, e))
  {
    hide Provision, RunStep, ControlStep, InvTerm, InvHandle, InvIds;
    if e.CreateVm? || e.SetMemory? || e.AllocId? || e.Insert? {
      TermProvision(s, e);
    } else if e.Enter? || e.GetHandle? || e.CreateVcpu? || e.RunVcpu? || e.WriteBack? {
      TermRun(s, e);
    } else if e.Claim? {
      TermClaim(s, e);
    } else if e.DestroyVm? {
      TermDestroy(s, e);
    } else if e.Finish? {
      TermFinish(s, e);
    } else {
      TermPause(s, e);
    }
  }

  // ---- Consoles ---------------------------------------------------------------

  /** The serial output of the completed runs of one container, in completion order. */
  function Output(runs: seq<(Id, seq<Exit>)>, id: Id): Bytes {
    if runs == [] then []
    else
      var last := runs[|runs| - 1];
      Output(runs[..|runs| - 1], id) + if last.0 == id then Com1(last.1) else []
  }

  predicate Runner(p: Pc) { p.Entered? || p.HasHandle? || p.Looping? || p.Halted? }

  ghost predicate InvConsole(s: Sys) {
    && (forall t | t in s.threads && Runner(s.threads[t]) :: s.threads[t].id in s.store.containers)
    && (forall t | t in s.threads && (s.threads[t].Looping? || s.threads[t].Halted?) ::
          s.threads[t].bytes == Com1(s.threads[t].exits))
    && (forall i | 0 <= i < |s.runs| :: s.runs[i].0 in s.store.containers)
    && (forall id | id in s.store.containers :: s.store.containers[id].console == Output(s.runs, id))
  }

  lemma {:induction false} NoOutput(runs: seq<(Id, seq<Exit>)>, id: Id)
    requires forall i | 0 <= i < |runs| :: runs[i].0 != id
    ensures Output(runs, id) == []
    decreases |runs|
  {
    if runs != [] { NoOutput(runs[..|runs| - 1], id); }
  }

  lemma OutputAppend(runs: seq<(Id, seq<Exit>)>, r: (Id, seq<Exit>), id: Id)
    ensures Output(runs + [r], id) == Output(runs, id) + if r.0 == id then Com1(r.1) else []
  {
    assert (runs + [r])[..|runs|] == runs;
  }

  lemma Com1Append(exits: seq<Exit>, e: Exit)
    ensures Com1(exits + [e]) == Com1(exits) + Serial(e)
  {
    assert (exits + [e])[..|exits|] == exits;
  }

  lemma ConsoleProvision(s: Sys, e: Event)
    requires InvConsole(s) && InvIds(s)
    ensures InvConsole(Provision(s, e))
  {
    if e.Insert? && e.t in s.threads && s.threads[e.t].HasId? { NoOutput(s.runs, s.threads[e.t].id); }
  }

  lemma ConsoleRun(s: Sys, e: Event)
    requires InvConsole(s)
    ensures InvConsole(RunStep(s, e))
  {
    hide Com1, Output;
    if e.RunVcpu? && e.t in s.threads && s.threads[e.t].Looping? { Com1Append(s.threads[e.t].exits, e.exit); }
    if e.CreateVcpu? { NothingPrinted(); }
    if e.WriteBack? && e.t in s.threads && s.threads[e.t].Halted? {
      var p := s.threads[e.t];
      forall id ensures Output(s.runs + [(p.id, p.exits)], id)
                        == Output(s.runs, id) + if p.id == id then Com1(p.exits) else []
      {
        OutputAppend(s.runs, (p.id, p.exits), id);
      }
    }
  }

  lemma NothingPrinted()
    ensures Com1([]) == []
  {
  }

  lemma ConsoleControl(s: Sys, e: Event)
    requires InvConsole(s)
    ensures InvConsole(ControlStep(s, e))
  {
    hide Com1, Output;
  }

  lemma ConsoleStep(s: Sys, e: Event)
    requires InvConsole(s) && InvIds(s)
    ensures InvConsole(Next(s, e))
  {
    hide Provision, RunStep, ControlStep, InvConsole, InvIds;
    ConsoleProvision(s, e);
    ConsoleRun(s, e);
    ConsoleControl(s, e);
  }

  // ---- Every interleaving -----------------------------------------------------

  ghost predicate Inv(s: Sys) {
    && InvIds(s)
    && InvHandle(s)
    && InvTerm(s)
    && InvConsole(s)
  }

  lemma InvStep(s: Sys, e: Event)
    requires Inv(s) && Next(s, e).allocs <= TWO_64
    ensures Inv(Next(s, e))
  {
    hide Next, InvIds, InvHandle, InvTerm, InvConsole;
    IdsStep(s, e);
    HandleStep(s, e);
    TermStep(s, e);
    ConsoleStep(s, e);
  }

  lemma AllocsGrow(s: Sys, e: Event)
    ensures s.allocs <= Next(s, e).allocs
  {
  }

  lemma InvInit()
    ensures Inv(INIT)
  {
  }

  /** Every state reached by any interleaving satisfies the invariant, up to 2^64 provisioned ids. */
  lemma {:induction false} InvAlways(es: seq<Event>)
    requires Run(INIT, es).allocs <= TWO_64
    ensures Inv(Run(INIT, es))
    decreases |es|
  {
    hide Next, Inv;
    if es == [] {
      InvInit();
    } else {
      var front, e := es[..|es| - 1], es[|es| - 1];
      AllocsGrow(Run(INIT, front), e);
      InvAlways(front);
      InvStep(Run(INIT, front), e);
    }
  }

  /** Reached by some interleaving within the id space. */
  ghost predicate Reachable(s: Sys) { exists es :: s == Run(INIT, es) && s.allocs <= TWO_64 }

  lemma ReachableInv(s: Sys)
    requires Reachable(s)
    ensures Inv(s)
  {
    var es :| s == Run(INIT, es) && s.allocs <= TWO_64;
    InvAlways(es);
  }

  lemma {:induction false} WithinIdSpace(es: seq<Event>)
    requires Run(INIT, es).allocs <= TWO_64
    ensures NothingReplaced(es)
    decreases |es|
  {
    if es != [] {
      var front, e := es[..|es| - 1], es[|es| - 1];
      AllocsGrow(Run(INIT, front), e);
      WithinIdSpace(front);
      InvAlways(front);
      assert es == front + [e];
      NothingReplacedSnoc(front, e);
    }
  }

  /**
   Conservation of VMs, in every run: a VM is never in two of a container, an in-flight provision,
   an in-flight terminate, one `destroy_vm` call and the abandoned ones, and nothing is there that
   was not created. Every VM ever created is in one of them exactly when no insert replaced a
   container that had a VM, which takes more than 2^64 provisions.
   */
  lemma EveryVmInOnePlace(es: seq<Event>)
    ensures forall vm, p, q | Holds(Run(INIT, es), vm, p) && Holds(Run(INIT, es), vm, q) :: p == q
    ensures forall vm, p | Holds(Run(INIT, es), vm, p) :: vm in Run(INIT, es).created
    ensures (forall vm | vm in Run(INIT, es).created :: exists p :: Holds(Run(INIT, es), vm, p)) <==> NothingReplaced(es)
    ensures Run(INIT, es).allocs <= TWO_64 ==> NothingReplaced(es)
  {
    hide Run, Where, Holds, NothingReplaced;
    var s, w := Run(INIT, es), Where(es);
    PlacesAlways(es);
    if s.allocs <= TWO_64 { WithinIdSpace(es); }
    if NothingReplaced(es) {
      forall vm | vm in s.created ensures exists p :: Holds(s, vm, p) {
        assert Holds(s, vm, w[vm]);
      }
    }
  }

  /** The bound is sharp: one provision more can replace a container and lose its VM. */
  lemma ReplacementHappens() returns (es: seq<Event>)
    ensures Run(INIT, es).allocs == TWO_64 + 1 && !NothingReplaced(es)
  {
    var front := AnyNumberOfIds(TWO_64);
    var vm := TWO_64;
    CounterAlways(front);
    assert IdAt(TWO_64) == 1;
    var r := ProvisionRound(vm);
    es := front + [r[0]] + [r[1]] + [r[2]];
    RunSnoc(INIT, front, r[0]);
    RunSnoc(INIT, front + [r[0]], r[1]);
    RunSnoc(INIT, front + [r[0]] + [r[1]], r[2]);
    RunSnoc(INIT, es, r[3]);
    NothingReplacedSnoc(es, r[3]);
    hide Run, HandedOut, NothingReplaced;
    ThirdStep(Run(INIT, front), vm);
    es := es + [r[3]];
  }

  lemma ThirdStep(s: Sys, vm: Vm)
    requires s.threads == map[] && vm !in s.created && s.store.nextId == 1
    requires 1 in s.store.containers && s.store.containers[1].vm.Some?
    ensures var r := ProvisionRound(vm);
            var s3 := Next(Next(Next(s, r[0]), r[1]), r[2]);
            Replaces(s3, r[3]) && s3.allocs == s.allocs + 1 && Next(s3, r[3]).allocs == s.allocs + 1
  {
  }

  /** In every run no VM is passed to `destroy_vm` twice, and none still held or abandoned was ever passed. */
  lemma NoVmDestroyedTwice(es: seq<Event>)
    ensures var s := Run(INIT, es);
            && (forall i, j | 0 <= i < j < |s.destroyCalls| :: s.destroyCalls[i] != s.destroyCalls[j])
            && (forall id | id in s.store.containers && s.store.containers[id].vm.Some? ::
                  s.store.containers[id].vm.value !in s.destroyCalls)
            && (forall vm | vm in s.abandoned :: vm !in s.destroyCalls)
  {
    hide Run, Where;
    var s, w := Run(INIT, es), Where(es);
    PlacesAlways(es);
    forall i | 0 <= i < |s.destroyCalls| ensures s.destroyCalls[i] in w && w[s.destroyCalls[i]] == DestroyCall(i) {
      assert Holds(s, s.destroyCalls[i], DestroyCall(i));
    }
    forall id | id in s.store.containers && s.store.containers[id].vm.Some?
      ensures s.store.containers[id].vm.value !in s.destroyCalls
    {
      assert Holds(s, s.store.containers[id].vm.value, InContainer(id));
    }
    forall vm | vm in s.abandoned ensures vm !in s.destroyCalls {
      assert Holds(s, vm, Abandoned);
    }
  }

  /** In every run a container has a VM handle exactly while it is neither Terminating nor Terminated. */
  lemma {:induction false} HandleAlways(es: seq<Event>)
    ensures InvHandle(Run(INIT, es))
    decreases |es|
  {
    if es != [] {
      hide Next, InvHandle;
      HandleAlways(es[..|es| - 1]);
      HandleStep(Run(INIT, es[..|es| - 1]), es[|es| - 1]);
    }
  }

  /** An insert never replaces a container, and container ids are never zero until the counter returns to it. */
  lemma InsertIsFresh(s: Sys, t: Thread)
    requires Reachable(s)
    ensures t in s.threads && s.threads[t].HasId? ==> s.threads[t].id !in s.store.containers
    ensures s.allocs <= MAX_IDS ==>
              && (forall id | id in s.store.containers :: id != 0)
              && (t in s.threads && s.threads[t].HasId? ==> s.threads[t].id != 0)
  {
    ReachableInv(s);
  }

  /** The console is the unmixed output of completed runs in order, and a Terminating container has its terminator. */
  lemma ContainerFacts(s: Sys, id: Id)
    requires Reachable(s) && id in s.store.containers
    ensures s.store.containers[id].console == Output(s.runs, id)
    ensures s.store.containers[id].lifecycle.Terminating? <==> exists t :: Ends(s, t, id)
  {
    ReachableInv(s);
    if s.store.containers[id].lifecycle.Terminating? {
      var t :| t in s.threads && Terminator(s.threads[t]) && s.threads[t].id == id;
      assert Ends(s, t, id);
    }
  }

  /** New containers start in Provisioning; every other change of a lifecycle follows the table. */
  lemma LifecycleFollowsTable(s: Sys, e: Event, id: Id)
    requires InvIds(s) && id in Next(s, e).store.containers
    ensures id !in s.store.containers ==> e.Insert? && Next(s, e).store.containers[id].lifecycle.Provisioning?
    ensures id in s.store.containers && Next(s, e).store.containers[id].lifecycle != s.store.containers[id].lifecycle ==>
              && (s.store.containers[id].lifecycle, Next(s, e).store.containers[id].lifecycle) in DIAGRAM
              && Next(s, e).store.containers[id].lifecycle
                 == (if e.Enter? then Running else if e.Suspend? then Suspended else if e.Snapshot? then Snapshotted
                     else if e.Claim? then Terminating else Terminated)
              && (e.Enter? || e.Suspend? || e.Snapshot? || e.Claim? || e.Finish?)
  {
  }

  /**
   In every run, what each control event does. `run` and `resume` enter a container that is
   Provisioning, Suspended or Snapshotted; `suspend` needs Running and `snapshot` Suspended; a
   terminate claims exactly the containers that still have their VM. Otherwise nothing changes.
   */
  lemma ControlExactly(es: seq<Event>, t: Thread, id: Id)
    ensures
      var s := Run(INIT, es);
      var free := t !in s.threads && id in s.store.containers;
      && (free && s.store.containers[id].lifecycle in {Provisioning, Suspended, Snapshotted} ==>
            Next(s, Enter(t, id)) == Put(Relabelled(s, id, Running), t, Entered(id)))
      && (!(free && s.store.containers[id].lifecycle in {Provisioning, Suspended, Snapshotted}) ==>
            Next(s, Enter(t, id)) == s)
      && (free && s.store.containers[id].vm.Some? ==>
            Next(s, Claim(t, id)) == Put(Stripped(s, id), t, Claiming(id, s.store.containers[id].vm)))
      && (!(free && s.store.containers[id].vm.Some?) ==> Next(s, Claim(t, id)) == s)
  {
    hide Run, Moved, Claimed;
    var s := Run(INIT, es);
    HandleAlways(es);
    MovedExactly(s.store, id, Running);
    ClaimedExactly(s.store, id);
  }

  lemma PauseExactly(s: Sys, t: Thread, id: Id)
    ensures id in s.store.containers && s.store.containers[id].lifecycle == Running ==>
              Next(s, Suspend(t, id)) == Relabelled(s, id, Suspended)
    ensures !(id in s.store.containers && s.store.containers[id].lifecycle == Running) ==> Next(s, Suspend(t, id)) == s
    ensures id in s.store.containers && s.store.containers[id].lifecycle == Suspended ==>
              Next(s, Snapshot(t, id)) == Relabelled(s, id, Snapshotted)
    ensures !(id in s.store.containers && s.store.containers[id].lifecycle == Suspended) ==> Next(s, Snapshot(t, id)) == s
  {
    hide Moved;
    MovedExactly(s.store, id, Suspended);
    MovedExactly(s.store, id, Snapshotted);
  }

  /** The container's lifecycle set, everything else as it was. */
  function Relabelled(s: Sys, id: Id, to: Lifecycle): Sys
    requires id in s.store.containers
  {
    var Container(_, vm, console) := s.store.containers[id];
    s.(store := Store(s.store.containers[id := Container(to, vm, console)], s.store.nextId))
  }

  /** The container Terminating and without its VM, everything else as it was. */
  function Stripped(s: Sys, id: Id): Sys
    requires id in s.store.containers
  {
    s.(store := Store(s.store.containers[id := Container(Terminating, None, s.store.containers[id].console)], s.store.nextId))
  }

  /** A guest run works on the VM its container has at that moment, and gives up when there is none. */
  lemma HandleTaken(s: Sys, t: Thread, id: Id)
    requires At(s, t, Entered(id))
    ensures id in s.store.containers && s.store.containers[id].vm.Some? ==>
              Next(s, GetHandle(t)) == Put(s, t, HasHandle(id, s.store.containers[id].vm.value))
    ensures !(id in s.store.containers && s.store.containers[id].vm.Some?) ==> Next(s, GetHandle(t)) == Leave(s, t)
  {
  }

  lemma VcpuExactly(s: Sys, t: Thread, id: Id, vm: Vm, ok: bool)
    requires At(s, t, HasHandle(id, vm))
    ensures Next(s, CreateVcpu(t, ok)) == if ok then Put(s, t, Looping(id, [], [])) else Leave(s, t)
  {
  }

  /** The events of one guest run that does not end yet. */
  function Exits(t: Thread, exits: seq<Exit>): seq<Event> { seq(|exits|, i requires 0 <= i < |exits| => RunVcpu(t, exits[i])) }

  /**
   A guest run as the engine performs it: writes and ignored exits are collected, a halt or shutdown
   keeps what was written to port 0x3F8 for the write-back, and an error ends the call.
   */
  lemma {:induction false} GuestRunExactly(s: Sys, t: Thread, id: Id, exits: seq<Exit>, last: Exit)
    requires At(s, t, Looping(id, [], [])) && forall i | 0 <= i < |exits| :: exits[i].IoOut? || exits[i].MmioWrite?
    ensures
      var s' := Run(s, Exits(t, exits));
      var end := Next(s', RunVcpu(t, last));
      && s' == Put(s, t, Looping(id, exits, Com1(exits)))
      && (last.Halt? || last.Shutdown? ==> end == Put(s, t, Halted(id, exits, Com1(exits))))
      && (last.InternalError? || last.RunFailed? ==> end == Leave(s, t))
    decreases |exits|
  {
    hide Com1, Serial;
    var s' := Run(s, Exits(t, exits));
    if exits == [] {
      NothingPrintedYet();
      assert s.threads[t := Looping(id, [], [])] == s.threads;
    } else {
      var n := |exits| - 1;
      GuestRunExactly(s, t, id, exits[..n], last);
      Com1Snoc(exits[..n], exits[n]);
      assert Exits(t, exits)[..n] == Exits(t, exits[..n]);
      LoopsOn(Run(s, Exits(t, exits[..n])), t, exits[n]);
      assert exits[..n] + [exits[n]] == exits;
      hide Next;
      assert s' == Next(Run(s, Exits(t, exits[..n])), RunVcpu(t, exits[n]));
      assert s.threads[t := Looping(id, exits[..n], Com1(exits[..n]))][t := Looping(id, exits, Com1(exits))]
          == s.threads[t := Looping(id, exits, Com1(exits))];
    }
    LoopEnds(s', t, last);
    hide Next;
    var p := Looping(id, exits, Com1(exits));
    assert s.threads[t := p][t := Halted(id, exits, Com1(exits))] == s.threads[t := Halted(id, exits, Com1(exits))];
    assert s.threads[t := p] - {t} == s.threads - {t};
  }

  lemma NothingPrintedYet()
    ensures Com1([]) == []
  {
  }

  lemma LoopsOn(s: Sys, t: Thread, exit: Exit)
    requires t in s.threads && s.threads[t].Looping? && (exit.IoOut? || exit.MmioWrite?)
    ensures var p := s.threads[t];
            Next(s, RunVcpu(t, exit)) == Put(s, t, Looping(p.id, p.exits + [exit], p.bytes + Serial(exit)))
  {
  }

  lemma LoopEnds(s: Sys, t: Thread, last: Exit)
    requires t in s.threads && s.threads[t].Looping?
    ensures last.Halt? || last.Shutdown? ==>
              Next(s, RunVcpu(t, last)) == Put(s, t, Halted(s.threads[t].id, s.threads[t].exits, s.threads[t].bytes))
    ensures last.InternalError? || last.RunFailed? ==> Next(s, RunVcpu(t, last)) == Leave(s, t)
  {
  }

  /** A run that fails ends its call and leaves every container as it is. */
  lemma FailedRunKeepsStore(s: Sys, t: Thread, exit: Exit)
    requires t in s.threads && s.threads[t].Looping? && (exit.InternalError? || exit.RunFailed?)
    ensures Next(s, RunVcpu(t, exit)) == Leave(s, t)
  {
  }

  lemma EndingByClaim(s: Sys, e: Event, id: Id)
    requires id in Next(s, e).store.containers && Ending(Next(s, e).store.containers[id].lifecycle)
    requires !(e.Claim? && e.id == id)
    ensures id in s.store.containers && Ending(s.store.containers[id].lifecycle)
  {
  }

  /** In every run only a terminate call ends a container; no exit of a guest run does. */
  lemma {:induction false} EndedByTerminate(es: seq<Event>, id: Id)
    requires id in Run(INIT, es).store.containers && Ending(Run(INIT, es).store.containers[id].lifecycle)
    ensures exists i :: 0 <= i < |es| && es[i].Claim? && es[i].id == id
    decreases |es|
  {
    hide Next, Ending;
    var front, e := es[..|es| - 1], es[|es| - 1];
    if e.Claim? && e.id == id {
      assert es[|es| - 1].Claim?;
    } else {
      EndingByClaim(Run(INIT, front), e, id);
      EndedByTerminate(front, id);
      var i :| 0 <= i < |front| && front[i].Claim? && front[i].id == id;
      assert es[i].Claim? && es[i].id == id;
    }
  }

  /** A guest run from a fresh engine up to its vCPU loop. */
  function FirstRun(): seq<Event> { ProvisionRound(0) + [Enter(0, 1), GetHandle(0), CreateVcpu(0, true)] }

  lemma FirstRunLoops()
    ensures var s := Run(INIT, FirstRun());
            s.threads == map[0 := Looping(1, [], [])] && 1 in s.store.containers && s.store.containers[1].lifecycle.Running?
  {
    var r := ProvisionRound(0);
    var es := [] + [r[0]] + [r[1]] + [r[2]] + [r[3]];
    assert FirstRun() == es + [Enter(0, 1)] + [GetHandle(0)] + [CreateVcpu(0, true)];
    FirstContainer(es);
    RunSnoc(INIT, es, Enter(0, 1));
    RunSnoc(INIT, es + [Enter(0, 1)], GetHandle(0));
    RunSnoc(INIT, es + [Enter(0, 1)] + [GetHandle(0)], CreateVcpu(0, true));
  }

  lemma FirstContainer(es: seq<Event>)
    requires var r := ProvisionRound(0); es == [] + [r[0]] + [r[1]] + [r[2]] + [r[3]]
    ensures Run(INIT, es).threads == map[]
    ensures Run(INIT, es).store == Store(map[1 := Container(Provisioning, Some(0), [])], 2)
  {
    var r := ProvisionRound(0);
    RunSnoc(INIT, [], r[0]);
    RunSnoc(INIT, [] + [r[0]], r[1]);
    RunSnoc(INIT, [] + [r[0]] + [r[1]], r[2]);
    RunSnoc(INIT, [] + [r[0]] + [r[1]] + [r[2]], r[3]);
  }

  /** After an internal error of the hypervisor a container can still be Running, with nobody running it. */
  lemma InternalErrorStaysRunning()
    ensures var s := Run(INIT, FirstRun() + [RunVcpu(0, InternalError)]);
            s.threads == map[] && 1 in s.store.containers && s.store.containers[1].lifecycle.Running?
  {
    FirstRunLoops();
    RunSnoc(INIT, FirstRun(), RunVcpu(0, InternalError));
    FailedRunKeepsStore(Run(INIT, FirstRun()), 0, InternalError);
  }

  lemma OthersKeepPc(s: Sys, e: Event, t: Thread)
    requires t in s.threads && e.t != t
    ensures t in Next(s, e).threads && Next(s, e).threads[t] == s.threads[t]
  {
  }

  lemma {:induction false} OthersKeepPcRun(s: Sys, es: seq<Event>, t: Thread)
    requires t in s.threads && forall i | 0 <= i < |es| :: es[i].t != t
    ensures At(Run(s, es), t, s.threads[t])
    decreases |es|
  {
    hide Next;
    if es != [] {
      OthersKeepPcRun(s, es[..|es| - 1], t);
      OthersKeepPc(Run(s, es[..|es| - 1]), es[|es| - 1], t);
    }
  }

  lemma {:induction false} RunAppend(s: Sys, es: seq<Event>, fs: seq<Event>)
    ensures Run(s, es + fs) == Run(Run(s, es), fs)
    decreases |fs|
  {
    hide Next;
    if fs == [] {
      assert es + fs == es;
    } else {
      assert (es + fs)[..|es + fs| - 1] == es + fs[..|fs| - 1];
      RunAppend(s, es, fs[..|fs| - 1]);
    }
  }

  lemma ReachableRun(s: Sys, es: seq<Event>)
    requires Reachable(s) && Run(s, es).allocs <= TWO_64
    ensures Reachable(Run(s, es))
  {
    hide Run;
    var fs :| s == Run(INIT, fs) && s.allocs <= TWO_64;
    RunAppend(INIT, fs, es);
  }

  /**
   A terminate that passed its first lock section reaches Terminated whatever others do in
   between: its VM is handed to `destroy_vm` even if that fails, and its last section never
   meets a missing container or a rejected transition.
   */
  lemma TerminateCompletes(s: Sys, t: Thread, id: Id, others1: seq<Event>, ok: bool, others2: seq<Event>)
    requires Reachable(s) && t in s.threads && s.threads[t].Claiming? && s.threads[t].id == id
    requires forall i | 0 <= i < |others1| :: others1[i].t != t
    requires forall i | 0 <= i < |others2| :: others2[i].t != t
    requires Run(Next(Run(s, others1), DestroyVm(t, ok)), others2).allocs <= TWO_64
    ensures var s1 := Run(s, others1);
            var s2 := Next(s1, DestroyVm(t, ok));
            var s3 := Run(s2, others2);
            var end := Next(s3, Finish(t));
            && s.threads[t].taken.Some?
            && s2.destroyCalls == s1.destroyCalls + [s.threads[t].taken.value]
            && t !in end.threads
            && id in end.store.containers
            && end.store.containers[id].lifecycle == Terminated
            && end.store.containers[id].vm == None
  {
    var s1 := Run(s, others1);
    var s2 := Next(s1, DestroyVm(t, ok));
    var s3 := Run(s2, others2);
    ReachableInv(s);
    OthersKeepPcRun(s, others1, t);
    DestroyIsStep(s1, t, ok);
    OthersKeepPcRun(s2, others2, t);
    var all := others1 + [DestroyVm(t, ok)] + others2;
    RunAppend(s, others1 + [DestroyVm(t, ok)], others2);
    RunAppend(s, others1, [DestroyVm(t, ok)]);
    RunOne(s1, DestroyVm(t, ok));
    assert s3 == Run(s, all);
    ReachableRun(s, all);
    ReachableInv(s3);
    FinishTerminates(s3, t, id);
  }

  lemma RunOne(s: Sys, e: Event)
    ensures Run(s, [e]) == Next(s, e)
  {
    hide Next;
    assert [e][..0] == [];
    assert Run(s, []) == s;
  }

  lemma DestroyIsStep(s: Sys, t: Thread, ok: bool)
    requires t in s.threads && s.threads[t].Claiming? && s.threads[t].taken.Some?
    ensures At(Next(s, DestroyVm(t, ok)), t, Finishing(s.threads[t].id))
    ensures Next(s, DestroyVm(t, ok)).destroyCalls == s.destroyCalls + [s.threads[t].taken.value]
  {
  }

  lemma FinishTerminates(s: Sys, t: Thread, id: Id)
    requires Inv(s) && At(s, t, Finishing(id))
    ensures t !in Next(s, Finish(t)).threads
    ensures id in Next(s, Finish(t)).store.containers
    ensures Next(s, Finish(t)).store.containers[id].lifecycle == Terminated
    ensures Next(s, Finish(t)).store.containers[id].vm == None
  {
    assert Terminator(s.threads[t]);
  }

  lemma TerminatedStep(s: Sys, e: Event, id: Id)
    requires InvIds(s) && id in s.store.containers && s.store.containers[id].lifecycle.Terminated?
    ensures id in Next(s, e).store.containers && Next(s, e).store.containers[id].lifecycle.Terminated?
  {
  }

  /** Terminated is for ever, in every continuation. */
  lemma {:induction false} TerminatedForever(s: Sys, es: seq<Event>, id: Id)
    requires Reachable(s) && id in s.store.containers && s.store.containers[id].lifecycle.Terminated?
    requires Run(s, es).allocs <= TWO_64
    ensures id in Run(s, es).store.containers && Run(s, es).store.containers[id].lifecycle.Terminated?
    decreases |es|
  {
    hide Next;
    if es != [] {
      var front, e := es[..|es| - 1], es[|es| - 1];
      AllocsGrow(Run(s, front), e);
      TerminatedForever(s, front, id);
      ReachableRun(s, front);
      ReachableInv(Run(s, front));
      TerminatedStep(Run(s, front), e, id);
    }
  }
}
