/**
 The container engine's shared state and its lock sections.

 A `Store` is what the engine's mutex guards, plus the atomic id counter. Each function below is
 one critical section; `KvmEngine` performs the same sections on fields, in place.
 */
module Containers {
  import opened Base

  type Vm = nat
  type Id = u64

  datatype Lifecycle = Pending | Provisioning | Running | Suspended | Snapshotted | Terminating | Terminated

  /** The transition table, grouped by destination. */
  predicate Edge(from: Lifecycle, to: Lifecycle) {
    match to
    case Pending => false
    case Provisioning => from.Pending?
    case Running => from.Provisioning? || from.Suspended? || from.Snapshotted?
    case Suspended => from.Running?
    case Snapshotted => from.Suspended?
    case Terminating => from.Pending? || from.Provisioning? || from.Running? || from.Suspended? || from.Snapshotted?
    case Terminated => from.Terminating?
  }

  datatype Container = Container(lifecycle: Lifecycle, vm: Option<Vm>, console: Bytes)

  datatype Store = Store(containers: map<Id, Container>, nextId: u64)

  datatype EngineError = NotFound | InvalidTransition(from: Lifecycle, to: Lifecycle) | NoVmHandle

  function Moved(st: Store, id: Id, to: Lifecycle): Result<Store, EngineError> {
    if id !in st.containers then Err(NotFound)
    else
      var c := st.containers[id];
      if !Edge(c.lifecycle, to) then Err(InvalidTransition(c.lifecycle, to))
      else Ok(st.(containers := st.containers[id := c.(lifecycle := to)]))
  }

  /** First section of terminate: move to Terminating and take the handle. */
  function Claimed(st: Store, id: Id): Result<(Store, Option<Vm>), EngineError> {
    match Moved(st, id, Terminating)
    case Err(e) => Err(e)
    case Ok(st') =>
      Ok((st'.(containers := st'.containers[id := st'.containers[id].(vm := None)]), st'.containers[id].vm))
  }

  function Inserted(st: Store, id: Id, vm: Vm): Store {
    st.(containers := st.containers[id := Container(Provisioning, Some(vm), [])])
  }

  function Handle(st: Store, id: Id): Result<Vm, EngineError> {
    if id !in st.containers then Err(NotFound)
    else match st.containers[id].vm
      case None => Err(NoVmHandle)
      case Some(vm) => Ok(vm)
  }

  function Appended(st: Store, id: Id, bytes: Bytes): Result<Store, EngineError> {
    if id !in st.containers then Err(NotFound)
    else
      var c := st.containers[id];
      Ok(st.(containers := st.containers[id := c.(console := c.console + bytes)]))
  }

  /** The counter wraps, as an atomic 64-bit fetch-add does. */
  function Numbered(st: Store): (Store, Id) { (st.(nextId := (st.nextId + 1) % TWO_64), st.nextId) }

  // ---- Outcomes ---------------------------------------------------------------

  /** The edges of the lifecycle diagram, one by one. */
  const DIAGRAM := {
    (Pending, Provisioning), (Provisioning, Running), (Running, Suspended), (Suspended, Running),
    (Suspended, Snapshotted), (Snapshotted, Running), (Pending, Terminating), (Provisioning, Terminating),
    (Running, Terminating), (Suspended, Terminating), (Snapshotted, Terminating), (Terminating, Terminated)
  }

  /** A transition changes that lifecycle and nothing else, or reports the first thing wrong. */
  lemma MovedExactly(st: Store, id: Id, to: Lifecycle)
    ensures id !in st.containers ==> Moved(st, id, to) == Err(NotFound)
    ensures id in st.containers ==>
              var Container(from, vm, console) := st.containers[id];
              Moved(st, id, to) == (if (from, to) in DIAGRAM
                                    then Ok(Store(st.containers[id := Container(to, vm, console)], st.nextId))
                                    else Err(InvalidTransition(from, to)))
  {
  }

  lemma ClaimedExactly(st: Store, id: Id)
    ensures id !in st.containers ==> Claimed(st, id) == Err(NotFound)
    ensures id in st.containers ==>
              var Container(from, vm, console) := st.containers[id];
              Claimed(st, id) == (if from != Terminating && from != Terminated
                                  then Ok((Store(st.containers[id := Container(Terminating, None, console)], st.nextId), vm))
                                  else Err(InvalidTransition(from, Terminating)))
  {
    if id in st.containers {
      var Container(from, vm, console) := st.containers[id];
      assert st.containers[id := Container(Terminating, vm, console)][id := Container(Terminating, None, console)]
          == st.containers[id := Container(Terminating, None, console)];
    }
  }

  /** The handle is the container's own. */
  lemma HandleExactly(st: Store, id: Id, vm: Vm)
    ensures Handle(st, id) == Ok(vm) <==> id in st.containers && st.containers[id].vm == Some(vm)
    ensures Handle(st, id) == Err(NoVmHandle) <==> id in st.containers && st.containers[id].vm == None
    ensures Handle(st, id) == Err(NotFound) <==> id !in st.containers
  {
  }

  // ---- The guest loop ---------------------------------------------------------

  /** One return of `run_vcpu`, including a failing one. */
  datatype Exit = IoOut(port: nat, data: Bytes) | MmioWrite(addr: nat) | Halt | Shutdown | InternalError | RunFailed

  const COM1 := 0x3F8

  function Com1(exits: seq<Exit>): Bytes {
    if exits == [] then []
    else Com1(exits[..|exits| - 1]) + Serial(exits[|exits| - 1])
  }

  function Serial(e: Exit): Bytes { if e.IoOut? && e.port == COM1 then e.data else [] }

  lemma Regroup(a: Bytes, b: Bytes, c: Bytes)
    ensures (a + b) + c == a + (b + c)
  {
  }

  lemma Com1Snoc(exits: seq<Exit>, e: Exit)
    ensures Com1(exits + [e]) == Com1(exits) + Serial(e)
  {
    hide Serial;
    assert (exits + [e])[..|exits|] == exits;
  }

  /** Front to back: writes to port 0x3F8 reach the console in order, and no other exit does. */
  lemma {:induction false} Com1Front(e: Exit, rest: seq<Exit>)
    ensures Com1([e] + rest) == (if e.IoOut? && e.port == 0x3F8 then e.data else []) + Com1(rest)
    decreases |rest|
  {
    if rest == [] {
      assert [e] + rest == [] + [e];
      Com1Snoc([], e);
    } else {
      var front, last := rest[..|rest| - 1], rest[|rest| - 1];
      hide Com1, Serial;
      Com1Front(e, front);
      assert [e] + rest == ([e] + front) + [last] && rest == front + [last];
      Com1Snoc([e] + front, last);
      Com1Snoc(front, last);
      Regroup(if e.IoOut? && e.port == 0x3F8 then e.data else [], Com1(front), Serial(last));
    }
  }

  predicate Continues(e: Exit) { e.IoOut? || e.MmioWrite? }

  datatype GuestRun = Finished(bytes: Bytes) | Failed | StillRunning(bytes: Bytes)

  /** The run loop over the exits the guest produces, up to its end or to the last one observed. */
  method GuestLoop(exits: seq<Exit>) returns (r: GuestRun, used: nat)
    ensures used <= |exits| && forall i | 0 <= i < used - 1 :: Continues(exits[i])
    ensures r.StillRunning? ==> used == |exits| && r.bytes == Com1(exits) && forall i | 0 <= i < used :: Continues(exits[i])
    ensures r.Finished? ==> used > 0 && (exits[used - 1].Halt? || exits[used - 1].Shutdown?) && r.bytes == Com1(exits[..used - 1])
    ensures r.Failed? ==> used > 0 && (exits[used - 1].InternalError? || exits[used - 1].RunFailed?)
  {
    var consoleBytes: Bytes := [];
    used := 0;
    while used < |exits|
      invariant used <= |exits| && consoleBytes == Com1(exits[..used])
      invariant forall i | 0 <= i < used :: Continues(exits[i])
    {
      var e := exits[used];
      assert exits[..used + 1][..used] == exits[..used];
      used := used + 1;
      match e
      case IoOut(port, data) => if port == COM1 { consoleBytes := consoleBytes + data; }
      case MmioWrite(_) =>
      case Halt => return Finished(consoleBytes), used;
      case Shutdown => return Finished(consoleBytes), used;
      case InternalError => return Failed, used;
      case RunFailed => return Failed, used;
    }
    assert exits[..used] == exits;
    r := StillRunning(consoleBytes);
  }

  // ---- The engine object ------------------------------------------------------

  class KvmEngine {
    var containers: map<Id, Container>
    var nextId: u64

    function View(): Store
      reads this
    {
      Store(containers, nextId)
    }

    constructor ()
      ensures View() == Store(map[], 1)
    {
      containers, nextId := map[], 1;
    }

    method AllocId() returns (id: Id)
      modifies this
      ensures (View(), id) == Numbered(old(View()))
    {
      id := nextId;
      nextId := (nextId + 1) % TWO_64;
    }

    /** The lock section of `provision`. */
    method Insert(id: Id, vm: Vm)
      modifies this
      ensures View() == Inserted(old(View()), id, vm)
    {
      containers := containers[id := Container(Provisioning, Some(vm), [])];
    }

    /** The lock section shared by `run`, `resume`, `suspend`, `snapshot` and the end of `terminate`. */
    method Transition(id: Id, to: Lifecycle) returns (r: Result<(), EngineError>)
      modifies this
      ensures r.Ok? ==> Moved(old(View()), id, to) == Ok(View())
      ensures r.Err? ==> Moved(old(View()), id, to) == Err(r.error) && View() == old(View())
    {
      if id !in containers { return Err(NotFound); }
      var state := containers[id];
      if !Edge(state.lifecycle, to) { return Err(InvalidTransition(state.lifecycle, to)); }
      containers := containers[id := state.(lifecycle := to)];
      return Ok(());
    }

    method ClaimVm(id: Id) returns (r: Result<Option<Vm>, EngineError>)
      modifies this
      ensures r.Ok? ==> Claimed(old(View()), id) == Ok((View(), r.value))
      ensures r.Err? ==> Claimed(old(View()), id) == Err(r.error) && View() == old(View())
    {
      var moved := Transition(id, Terminating);
      if moved.Err? { return Err(moved.error); }
      var vm := containers[id].vm;
      containers := containers[id := containers[id].(vm := None)];
      return Ok(vm);
    }

    method CloneHandle(id: Id) returns (r: Result<Vm, EngineError>)
      ensures r == Handle(View(), id)
    {
      if id !in containers { return Err(NotFound); }
      var vm := containers[id].vm;
      if vm.None? { return Err(NoVmHandle); }
      return Ok(vm.value);
    }

    /** Byte-by-byte write-back of a finished run. */
    method WriteBack(id: Id, bytes: Bytes) returns (r: Result<(), EngineError>)
      modifies this
      ensures r.Ok? ==> Appended(old(View()), id, bytes) == Ok(View())
      ensures r.Err? ==> Appended(old(View()), id, bytes) == Err(r.error) && View() == old(View())
    {
      if id !in containers { return Err(NotFound); }
      ghost var before := containers[id];
      assert before.console + bytes[..0] == before.console;
      for i := 0 to |bytes|
        invariant id in containers && nextId == old(nextId)
        invariant containers == old(containers)[id := before.(console := before.console + bytes[..i])]
      {
        assert before.console + bytes[..i + 1] == before.console + bytes[..i] + [bytes[i]];
        var state := containers[id];
        containers := containers[id := state.(console := state.console + [bytes[i]])];
      }
      assert bytes[..|bytes|] == bytes;
      return Ok(());
    }
  }
}
