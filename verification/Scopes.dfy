/**
 The scope vocabulary of the capability layer: action x resource x time window x caveats.

 The first half defines when a resource, a window or a scope counts as a subset of another: string
 and number comparisons alone. The second half gives resources and scopes a meaning, the requests
 they authorise, and says for every pair when those comparisons agree with inclusion of meanings.
 */
module Scopes {
  import opened Base

  datatype Action =
    | Read | Write | Append | Execute | Delete | Connect | Listen | ModelInfer | ModelLoad
    | AgentSpawn | AgentSend | IpcSend | IpcRecv | MmioMap | DmaMap | IrqAttach
    | PciConfigRead | PciConfigWrite | DriverLoad | DriverUnload | TeeProbe

  datatype Resource =
    | Any
    | Filesystem(path: string)
    | Network(endpoint: string)
    | Model(model: Ident)
    | Agent(agent: Ident)
    | Node(node: Ident)
    | IpcChannel(channel: u64)
    | PciDevice(segment: u16, bus: byte, device: byte, function_: byte)
    | MmioRegion(physBase: u64, mmioLen: u64)
    | DmaWindow(iovaBase: u64, dmaLen: u64)
    | IrqLine(line: u16)

  datatype TimeWindow = TimeWindow(notBefore: u64, notAfter: u64) {
    predicate Contains(now: u64) { notBefore <= now < notAfter }

    predicate IsSubsetOf(other: TimeWindow) {
      notBefore >= other.notBefore && notAfter <= other.notAfter
    }
  }

  datatype Caveat =
    | ExpiresAt(t: u64)
    | NotBefore(t: u64)
    | BoundToNode(node: Ident)
    | BoundToSession(session: Ident)
    | Custom(tag: string, payload: seq<byte>)

  datatype Scope = Scope(action: Action, resource: Resource, window: TimeWindow, caveats: seq<Caveat>)

  // ---- The syntactic tests ----------------------------------------------------

  const DEEP := "/**"

  predicate HasPrefix(s: string, p: string) { |p| <= |s| && s[..|p|] == p }

  // The part before a trailing slash-star-star, when there is one.
  function StripDeep(s: string): Option<string> {
    if |s| >= |DEEP| && s[|s| - |DEEP|..] == DEEP then Some(s[..|s| - |DEEP|]) else None
  }

  predicate PathIsSubset(a: string, b: string) {
    match StripDeep(b)
    case Some(bPrefix) =>
      (match StripDeep(a)
       case Some(aPrefix) => aPrefix == bPrefix || HasPrefix(aPrefix, bPrefix + "/")
       case None => a == bPrefix || HasPrefix(a, bPrefix + "/"))
    case None => a == b
  }

  /** Split at the last colon. */
  function RSplitColon(s: string): (r: Option<(string, string)>)
    ensures r.Some? <==> ':' in s
    ensures r.Some? ==> s == r.value.0 + ":" + r.value.1 && ':' !in r.value.1
  {
    if s == "" then None
    else if s[|s| - 1] == ':' then Some((s[..|s| - 1], ""))
    else match RSplitColon(s[..|s| - 1])
      case None => None
      case Some(hp) => Some((hp.0, hp.1 + [s[|s| - 1]]))
  }

  predicate EndpointIsSubset(a: string, b: string) {
    match (RSplitColon(a), RSplitColon(b))
    case (Some((aHost, aPort)), Some((bHost, bPort))) =>
      (bHost == "*" || aHost == bHost) && (bPort == "0" || aPort == bPort)
    case _ => false
  }

  // The sums are taken in 128 bits by the program, so they never wrap.
  predicate RangeIsSubset(childBase: u64, childLen: u64, parentBase: u64, parentLen: u64) {
    childBase >= parentBase && childBase + childLen <= parentBase + parentLen
  }

  predicate ResourceIsSubset(a: Resource, b: Resource) {
    match (a, b)
    case (_, Any) => true
    case (Filesystem(p), Filesystem(q)) => PathIsSubset(p, q)
    case (Network(p), Network(q)) => EndpointIsSubset(p, q)
    case (Model(p), Model(q)) => p == q
    case (Agent(p), Agent(q)) => p == q
    case (Node(p), Node(q)) => p == q
    case (IpcChannel(p), IpcChannel(q)) => p == q
    case (PciDevice(_, _, _, _), PciDevice(_, _, _, _)) => a == b
    case (MmioRegion(p, n), MmioRegion(q, m)) => RangeIsSubset(p, n, q, m)
    case (DmaWindow(p, n), DmaWindow(q, m)) => RangeIsSubset(p, n, q, m)
    case (IrqLine(p), IrqLine(q)) => p == q
    case _ => false
  }

  predicate ScopeIsSubset(a: Scope, b: Scope) {
    && a.action == b.action
    && ResourceIsSubset(a.resource, b.resource)
    && a.window.IsSubsetOf(b.window)
    && forall c | c in b.caveats :: c in a.caveats
  }

  // ---- Meaning of resources ---------------------------------------------------

  /** One concrete thing an action can be aimed at. */
  datatype Target =
    | AtFile(path: string)
    | AtEndpoint(host: string, port: string)
    | AtModel(id: Ident)
    | AtAgent(id: Ident)
    | AtNode(id: Ident)
    | AtChannel(channel: u64)
    | AtPci(segment: u16, bus: byte, device: byte, function_: byte)
    | AtPhys(addr: nat)
    | AtIova(addr: nat)
    | AtIrq(line: u16)

  /** Wildcards are not concrete endpoints. */
  predicate Concrete(t: Target) { t.AtEndpoint? ==> t.host != "*" && t.port != "0" }

  predicate PathMatches(pattern: string, path: string) {
    match StripDeep(pattern)
    case Some(prefix) => path == prefix || HasPrefix(path, prefix + "/")
    case None => path == pattern
  }

  predicate EndpointMatches(pattern: string, host: string, port: string) {
    match RSplitColon(pattern)
    case Some((h, p)) => (h == "*" || host == h) && (p == "0" || port == p)
    case None => false
  }

  predicate Admits(r: Resource, t: Target) {
    match (r, t)
    case (Any, _) => true
    case (Filesystem(p), AtFile(path)) => PathMatches(p, path)
    case (Network(e), AtEndpoint(host, port)) => EndpointMatches(e, host, port)
    case (Model(m), AtModel(id)) => m == id
    case (Agent(m), AtAgent(id)) => m == id
    case (Node(m), AtNode(id)) => m == id
    case (IpcChannel(m), AtChannel(c)) => m == c
    case (PciDevice(s, b, d, f), AtPci(s', b', d', f')) => s == s' && b == b' && d == d' && f == f'
    case (MmioRegion(base, len), AtPhys(addr)) => base <= addr < base + len
    case (DmaWindow(base, len), AtIova(addr)) => base <= addr < base + len
    case (IrqLine(l), AtIrq(l')) => l == l'
    case _ => false
  }

  ghost predicate Included(a: Resource, b: Resource) {
    forall t | Concrete(t) && Admits(a, t) :: Admits(b, t)
  }

  /** An endpoint pattern without a colon names nothing. */
  predicate WellFormed(r: Resource) { r.Network? ==> ':' in r.endpoint }

  /** Some concrete target is admitted: well formed and not an empty range. */
  predicate Inhabited(r: Resource) {
    && WellFormed(r)
    && (r.MmioRegion? ==> r.mmioLen > 0)
    && (r.DmaWindow? ==> r.dmaLen > 0)
  }

  lemma PrefixTrans(a: string, b: string, c: string)
    requires HasPrefix(a, b) && HasPrefix(b, c)
    ensures HasPrefix(a, c)
  {
    assert a[..|c|] == a[..|b|][..|c|];
  }

  lemma DeeperPrefix(a: string, q: string, p: string)
    requires HasPrefix(a, q + "/") && (q == p || HasPrefix(q, p + "/"))
    ensures HasPrefix(a, p + "/")
  {
    if q != p {
      assert (q + "/")[..|p + "/"|] == q[..|p + "/"|];
      PrefixTrans(a, q + "/", p + "/");
    }
  }

  lemma PathSubsetSound(a: string, b: string, path: string)
    requires PathIsSubset(a, b) && PathMatches(a, path)
    ensures PathMatches(b, path)
  {
    if StripDeep(b).Some? && StripDeep(a).Some? {
      var q, p := StripDeep(a).value, StripDeep(b).value;
      if path != q { DeeperPrefix(path, q, p); }
    }
  }

  /** A path pattern is included in another only if the test says so. */
  lemma PathSubsetComplete(a: string, b: string)
    requires forall path :: PathMatches(a, path) ==> PathMatches(b, path)
    ensures PathIsSubset(a, b)
  {
    match StripDeep(a)
    case None => assert PathMatches(a, a);
    case Some(q) =>
      assert PathMatches(a, q);
      assert HasPrefix(q + "/", q + "/");
      assert PathMatches(a, q + "/");
      assert |q| != |q + "/"|;
  }

  // What the patterns mean, in literal text.

  /** The directory itself or anything below it. */
  predicate Under(prefix: string, path: string) { path == prefix || prefix + "/" <= path }

  lemma DeepOf(prefix: string)
    ensures StripDeep(prefix + "/**") == Some(prefix)
  {
    var s := prefix + "/**";
    assert s[|s| - 3..] == "/**" && s[..|s| - 3] == prefix;
  }

  lemma PlainOf(s: string)
    requires forall x: string :: s != x + "/**"
    ensures StripDeep(s) == None
  {
    if |s| >= 3 {
      var x := s[..|s| - 3];
      assert s[|s| - 3..] == "/**" ==> s == x + "/**";
    }
  }

  /** A pattern ending in slash and two stars covers its prefix and everything below; any other covers itself alone. */
  lemma PathMeaning(pattern: string, path: string)
    ensures forall prefix: string | pattern == prefix + "/**" :: PathMatches(pattern, path) <==> Under(prefix, path)
    ensures (forall x: string :: pattern != x + "/**") ==> (PathMatches(pattern, path) <==> path == pattern)
  {
    forall prefix: string | pattern == prefix + "/**" ensures PathMatches(pattern, path) <==> Under(prefix, path) {
      DeepOf(prefix);
    }
    if forall x: string :: pattern != x + "/**" { PlainOf(pattern); }
  }

  /** The path test below a deep parent looks at the child's path, or at its prefix if the child is deep too. */
  lemma PathTestMeaning(a: string, b: string)
    ensures forall p: string, q: string | b == p + "/**" && a == q + "/**" :: PathIsSubset(a, b) <==> Under(p, q)
    ensures (forall x: string :: a != x + "/**") ==>
              forall p: string | b == p + "/**" :: PathIsSubset(a, b) <==> Under(p, a)
    ensures (forall x: string :: b != x + "/**") ==> (PathIsSubset(a, b) <==> a == b)
  {
    forall p: string, q: string | b == p + "/**" && a == q + "/**" ensures PathIsSubset(a, b) <==> Under(p, q) {
      DeepOf(p);
      DeepOf(q);
    }
    if forall x: string :: a != x + "/**" {
      PlainOf(a);
      forall p: string | b == p + "/**" ensures PathIsSubset(a, b) <==> Under(p, a) { DeepOf(p); }
    }
    if forall x: string :: b != x + "/**" { PlainOf(b); }
  }

  lemma LastColon(s: string, x: string, y: string, h: nat)
    requires s == x + ":" + y && ':' !in y && h < |s| && s[h] == ':'
    ensures h <= |x|
  {
    assert forall i | |x| < i < |s| :: s[i] == y[i - |x| - 1];
  }

  lemma SplitAtLastColon(h: string, p: string)
    requires ':' !in p
    ensures RSplitColon(h + ":" + p) == Some((h, p))
  {
    hide RSplitColon;
    var s := h + ":" + p;
    assert s[|h|] == ':';
    var (x, y) := RSplitColon(s).value;
    assert s[|x|] == ':';
    LastColon(s, x, y, |h|);
    LastColon(s, h, p, |x|);
    assert x == s[..|x|] && h == s[..|h|] && y == s[|x| + 1..] && p == s[|h| + 1..];
  }

  /** A star stands for every host and port zero for every port, in patterns and in the test. */
  lemma EndpointMeaning(h: string, p: string, host: string, port: string)
    requires ':' !in p && ':' !in port
    ensures EndpointMatches(h + ":" + p, host, port) <==> (h == "*" || host == h) && (p == "0" || port == p)
    ensures EndpointIsSubset(host + ":" + port, h + ":" + p) <==> (h == "*" || host == h) && (p == "0" || port == p)
  {
    SplitAtLastColon(h, p);
    SplitAtLastColon(host, port);
  }

  /** Some concrete string other than two given ones. */
  lemma Another(x: string, y: string) returns (z: string)
    ensures z != x && z != y
  {
    z := x + y + "x";
  }

  lemma EndpointSubsetComplete(a: string, b: string)
    requires ':' in a
    requires forall h, p | h != "*" && p != "0" && EndpointMatches(a, h, p) :: EndpointMatches(b, h, p)
    ensures EndpointIsSubset(a, b)
  {
    var (ah, ap) := RSplitColon(a).value;
    var freeHost := Another("*", if RSplitColon(b).Some? then RSplitColon(b).value.0 else "");
    var freePort := Another("0", if RSplitColon(b).Some? then RSplitColon(b).value.1 else "");
    var h := if ah == "*" then freeHost else ah;
    var p := if ap == "0" then freePort else ap;
    assert EndpointMatches(a, h, p);
  }

  /** Where a range sits: its smallest and its largest address. */
  lemma RangeSubsetComplete(a: Resource, b: Resource)
    requires a.MmioRegion? || a.DmaWindow?
    requires Inhabited(a) && Included(a, b) && !b.Any?
    ensures ResourceIsSubset(a, b)
  {
    match a
    case MmioRegion(base, len) =>
      assert Admits(a, AtPhys(base)) && Admits(a, AtPhys(base + len - 1));
      assert Concrete(AtPhys(base)) && Concrete(AtPhys(base + len - 1));
    case DmaWindow(base, len) =>
      assert Admits(a, AtIova(base)) && Admits(a, AtIova(base + len - 1));
      assert Concrete(AtIova(base)) && Concrete(AtIova(base + len - 1));
  }

  /** A target the resource reaches. */
  lemma InhabitedTarget(r: Resource) returns (t: Target)
    requires Inhabited(r)
    ensures Concrete(t) && Admits(r, t)
  {
    match r
    case Any => t := AtIrq(0);
    case Filesystem(p) => t := AtFile(if StripDeep(p).Some? then StripDeep(p).value else p);
    case Network(e) =>
      var (h, p) := RSplitColon(e).value;
      t := AtEndpoint(if h == "*" then "h" else h, if p == "0" then "1" else p);
    case Model(id) => t := AtModel(id);
    case Agent(id) => t := AtAgent(id);
    case Node(id) => t := AtNode(id);
    case IpcChannel(c) => t := AtChannel(c);
    case PciDevice(s, b, d, f) => t := AtPci(s, b, d, f);
    case MmioRegion(base, _) => t := AtPhys(base);
    case DmaWindow(base, _) => t := AtIova(base);
    case IrqLine(l) => t := AtIrq(l);
  }

  predicate SameKind(a: Resource, b: Resource) {
    match a
    case Any => b.Any?
    case Filesystem(_) => b.Filesystem?
    case Network(_) => b.Network?
    case MmioRegion(_, _) => b.MmioRegion?
    case DmaWindow(_, _) => b.DmaWindow?
    case _ => a == b
  }

  lemma AdmittedKind(a: Resource, b: Resource, t: Target)
    requires Admits(a, t) && Admits(b, t) && !a.Any? && !b.Any?
    ensures SameKind(a, b)
  {
  }

  lemma AnyIsWidest(b: Resource)
    requires !b.Any?
    ensures !Included(Any, b)
  {
    var t := if b.IrqLine? then AtPhys(0) else AtIrq(0);
    assert Concrete(t) && Admits(Any, t) && !Admits(b, t);
  }

  lemma IncludedKind(a: Resource, b: Resource)
    requires Inhabited(a) && Included(a, b) && !b.Any?
    ensures SameKind(a, b)
  {
    if a.Any? { AnyIsWidest(b); }
    var t := InhabitedTarget(a);
    AdmittedKind(a, b, t);
  }

  /** Sound on every pair: the test never accepts a resource that reaches further. */
  lemma ResourceSubsetSound(a: Resource, b: Resource)
    requires ResourceIsSubset(a, b)
    ensures Included(a, b)
  {
    forall t | Concrete(t) && Admits(a, t) ensures Admits(b, t) {
      if a.Filesystem? && b.Filesystem? { PathSubsetSound(a.path, b.path, t.path); }
    }
  }

  lemma ResourceSubsetComplete(a: Resource, b: Resource)
    requires Inhabited(a) && Included(a, b)
    ensures ResourceIsSubset(a, b)
  {
    if !b.Any? {
      IncludedKind(a, b);
      match a
      case Filesystem(p) =>
        forall path | PathMatches(p, path) ensures PathMatches(b.path, path) {
          assert Concrete(AtFile(path)) && Admits(a, AtFile(path));
        }
        PathSubsetComplete(p, b.path);
      case Network(e) =>
        forall h, q | h != "*" && q != "0" && EndpointMatches(e, h, q) ensures EndpointMatches(b.endpoint, h, q) {
          assert Concrete(AtEndpoint(h, q)) && Admits(a, AtEndpoint(h, q));
        }
        EndpointSubsetComplete(e, b.endpoint);
      case MmioRegion(_, _) => RangeSubsetComplete(a, b);
      case DmaWindow(_, _) => RangeSubsetComplete(a, b);
      case _ =>
    }
  }

  /**
   The test decides inclusion exactly, except that a resource naming nothing is accepted only
   below `Any` or, for an empty range, when its base lies in the closed span of the parent.
   */
  lemma ResourceSubsetDecides(a: Resource, b: Resource)
    ensures Inhabited(a) ==> (ResourceIsSubset(a, b) <==> Included(a, b))
    ensures !Inhabited(a) ==> Included(a, b)
    ensures !Inhabited(a) ==>
              (ResourceIsSubset(a, b) <==>
               || b.Any?
               || (a.MmioRegion? && b.MmioRegion? && b.physBase <= a.physBase <= b.physBase + b.mmioLen)
               || (a.DmaWindow? && b.DmaWindow? && b.iovaBase <= a.iovaBase <= b.iovaBase + b.dmaLen))
  {
    if Inhabited(a) {
      if ResourceIsSubset(a, b) { ResourceSubsetSound(a, b); }
      if Included(a, b) { ResourceSubsetComplete(a, b); }
    }
  }

  // ---- Order laws -------------------------------------------------------------

  /** Reflexive exactly on well-formed resources: an endpoint without a colon is not below itself. */
  lemma ResourceSubsetReflexive(r: Resource)
    ensures ResourceIsSubset(r, r) <==> WellFormed(r)
  {
  }

  lemma ResourceSubsetTransitive(a: Resource, b: Resource, c: Resource)
    requires ResourceIsSubset(a, b) && ResourceIsSubset(b, c)
    ensures ResourceIsSubset(a, c)
  {
    if a.Filesystem? && b.Filesystem? && c.Filesystem? {
      forall path | PathMatches(a.path, path) ensures PathMatches(c.path, path) {
        PathSubsetSound(a.path, b.path, path);
        PathSubsetSound(b.path, c.path, path);
      }
      PathSubsetComplete(a.path, c.path);
    }
  }

  lemma StripDeepInverse(s: string)
    requires StripDeep(s).Some?
    ensures s == StripDeep(s).value + DEEP
  {
  }

  lemma PathAntisymmetric(a: string, b: string)
    requires PathIsSubset(a, b) && PathIsSubset(b, a)
    ensures a == b
  {
    if StripDeep(a).Some? && StripDeep(b).Some? {
      StripDeepInverse(a);
      StripDeepInverse(b);
    }
  }

  /** Antisymmetric on everything, malformed and empty resources included. */
  lemma ResourceSubsetAntisymmetric(a: Resource, b: Resource)
    requires ResourceIsSubset(a, b) && ResourceIsSubset(b, a)
    ensures a == b
  {
    hide PathIsSubset;
    if a.Filesystem? && b.Filesystem? { PathAntisymmetric(a.path, b.path); }
  }

  // ---- Bounds -----------------------------------------------------------------

  /** The latest lower bound among `base` and the `NotBefore` caveats. */
  function Lower(base: u64, cs: seq<Caveat>): u64
    decreases |cs|
  {
    if cs == [] then base
    else Lower(if cs[0].NotBefore? then Max(base, cs[0].t) else base, cs[1..])
  }

  /** The earliest upper bound among `base` and the `ExpiresAt` caveats. */
  function Upper(base: u64, cs: seq<Caveat>): u64
    decreases |cs|
  {
    if cs == [] then base
    else Upper(if cs[0].ExpiresAt? then Min(base, cs[0].t) else base, cs[1..])
  }

  lemma {:induction false} LowerIsLatest(base: u64, cs: seq<Caveat>)
    ensures base <= Lower(base, cs)
    ensures forall c | c in cs && c.NotBefore? :: c.t <= Lower(base, cs)
    ensures Lower(base, cs) == base || NotBefore(Lower(base, cs)) in cs
    decreases |cs|
  {
    if cs != [] {
      LowerIsLatest(if cs[0].NotBefore? then Max(base, cs[0].t) else base, cs[1..]);
      assert forall c :: c in cs <==> c == cs[0] || c in cs[1..];
    }
  }

  lemma {:induction false} UpperIsEarliest(base: u64, cs: seq<Caveat>)
    ensures Upper(base, cs) <= base
    ensures forall c | c in cs && c.ExpiresAt? :: Upper(base, cs) <= c.t
    ensures Upper(base, cs) == base || ExpiresAt(Upper(base, cs)) in cs
    decreases |cs|
  {
    if cs != [] {
      UpperIsEarliest(if cs[0].ExpiresAt? then Min(base, cs[0].t) else base, cs[1..]);
      assert forall c :: c in cs <==> c == cs[0] || c in cs[1..];
    }
  }

  /** Both bounds depend only on which caveats occur. */
  lemma BoundsOfSet(base: u64, cs: seq<Caveat>, ds: seq<Caveat>)
    requires forall c :: c in cs <==> c in ds
    ensures Lower(base, cs) == Lower(base, ds) && Upper(base, cs) == Upper(base, ds)
  {
    LowerIsLatest(base, cs);
    LowerIsLatest(base, ds);
    UpperIsEarliest(base, cs);
    UpperIsEarliest(base, ds);
  }

  // ---- Meaning of scopes ------------------------------------------------------

  /** What a caller asks for. Binding and custom caveats are judged by the verifier's own predicates. */
  datatype Request = Request(action: Action, target: Target, now: u64, judge: Caveat -> bool)

  predicate Timed(c: Caveat) { c.ExpiresAt? || c.NotBefore? }

  predicate Holds(c: Caveat, rq: Request) {
    match c
    case ExpiresAt(t) => rq.now < t
    case NotBefore(t) => rq.now >= t
    case _ => rq.judge(c)
  }

  predicate Authorises(s: Scope, rq: Request) {
    && s.action == rq.action
    && Concrete(rq.target)
    && Admits(s.resource, rq.target)
    && s.window.Contains(rq.now)
    && forall c | c in s.caveats :: Holds(c, rq)
  }

  ghost predicate NeverWider(a: Scope, b: Scope) {
    forall rq: Request | Authorises(a, rq) :: Authorises(b, rq)
  }

  /** Time caveats already folded into the window, as attenuation leaves them. */
  ghost predicate Normal(s: Scope) {
    forall c | c in s.caveats ::
      && (c.ExpiresAt? ==> s.window.notAfter <= c.t)
      && (c.NotBefore? ==> s.window.notBefore >= c.t)
  }

  lemma ScopeSubsetSound(a: Scope, b: Scope)
    requires ScopeIsSubset(a, b)
    ensures NeverWider(a, b)
  {
    ResourceSubsetSound(a.resource, b.resource);
  }

  lemma ScopeSubsetTransitive(a: Scope, b: Scope, c: Scope)
    requires ScopeIsSubset(a, b) && ScopeIsSubset(b, c)
    ensures ScopeIsSubset(a, c)
  {
    ResourceSubsetTransitive(a.resource, b.resource, c.resource);
  }

  /** The request at one instant that satisfies exactly the caveats `a` lists. */
  function Probe(a: Scope, t: Target, now: u64): Request {
    Request(a.action, t, now, c => c in a.caveats)
  }

  lemma ProbeAuthorised(a: Scope, t: Target, now: u64)
    requires Normal(a) && Concrete(t) && Admits(a.resource, t) && a.window.Contains(now)
    ensures Authorises(a, Probe(a, t, now))
  {
  }

  // ---- When the scope test is exact --------------------------------------------

  /** The window left once the scope's own time caveats are taken into account. */
  function Effective(a: Scope): TimeWindow {
    TimeWindow(Lower(a.window.notBefore, a.caveats), Upper(a.window.notAfter, a.caveats))
  }

  /** Some instant and some target are authorised, so the scope is good for something. */
  predicate Usable(a: Scope) { Inhabited(a.resource) && Effective(a).notBefore < Effective(a).notAfter }

  /** The caveat is listed, or the effective window already enforces it. */
  predicate Covered(a: Scope, c: Caveat) {
    || c in a.caveats
    || (c.ExpiresAt? && Effective(a).notAfter <= c.t)
    || (c.NotBefore? && Effective(a).notBefore >= c.t)
  }

  /** Every limit of `b` binds `a`, be it listed or not. */
  predicate Within(a: Scope, b: Scope) {
    && a.action == b.action
    && ResourceIsSubset(a.resource, b.resource)
    && Effective(a).IsSubsetOf(b.window)
    && forall c | c in b.caveats :: Covered(a, c)
  }

  /** A caveat of `b` that `a` does not list. */
  predicate Omits(a: Scope, b: Scope) { exists c | c in b.caveats :: c !in a.caveats }

  /** The written window of `a` sticks out of that of `b`. */
  predicate Overhangs(a: Scope, b: Scope) { !a.window.IsSubsetOf(b.window) }

  lemma EffectiveBounds(a: Scope)
    ensures Effective(a).IsSubsetOf(a.window)
    ensures Normal(a.(window := Effective(a)))
    ensures Normal(a) ==> Effective(a) == a.window
  {
    LowerIsLatest(a.window.notBefore, a.caveats);
    UpperIsEarliest(a.window.notAfter, a.caveats);
  }

  /** Folding a scope's time caveats into its window changes nothing it authorises. */
  lemma EffectiveSame(a: Scope, rq: Request)
    ensures Authorises(a, rq) <==> Authorises(a.(window := Effective(a)), rq)
  {
    LowerIsLatest(a.window.notBefore, a.caveats);
    UpperIsEarliest(a.window.notAfter, a.caveats);
  }

  lemma UninhabitedAdmitsNothing(r: Resource, t: Target)
    requires !Inhabited(r)
    ensures !Admits(r, t)
  {
  }

  lemma UnusableAuthorisesNothing(a: Scope, rq: Request)
    requires !Usable(a)
    ensures !Authorises(a, rq)
  {
    EffectiveSame(a, rq);
    if !Inhabited(a.resource) { UninhabitedAdmitsNothing(a.resource, rq.target); }
  }

  lemma WithinSound(a: Scope, b: Scope, rq: Request)
    requires Within(a, b) && Authorises(a, rq)
    ensures Authorises(b, rq)
  {
    EffectiveSame(a, rq);
    ResourceSubsetSound(a.resource, b.resource);
    forall c | c in b.caveats ensures Holds(c, rq) {
      assert Covered(a, c);
    }
  }

  /** The requests that tell a wider scope apart: each target at the first and the last usable instant. */
  lemma ProbeTold(a: Scope, b: Scope, t: Target, now: u64)
    requires NeverWider(a, b) && Concrete(t) && Admits(a.resource, t) && Effective(a).Contains(now)
    ensures Authorises(b, Probe(a, t, now))
  {
    hide Authorises, Admits, Inhabited;
    EffectiveBounds(a);
    var e := a.(window := Effective(a));
    ProbeAuthorised(e, t, now);
    SameProbe(a, t, now);
    EffectiveSame(a, Probe(a, t, now));
  }

  lemma SameProbe(a: Scope, t: Target, now: u64)
    requires Authorises(a.(window := Effective(a)), Probe(a.(window := Effective(a)), t, now))
    ensures Authorises(a.(window := Effective(a)), Probe(a, t, now))
  {
  }

  lemma WithinComplete(a: Scope, b: Scope)
    requires Usable(a) && NeverWider(a, b)
    ensures Within(a, b)
  {
    var first, last := Effective(a).notBefore, Effective(a).notAfter - 1;
    var t0 := InhabitedTarget(a.resource);
    ProbeTold(a, b, t0, first);
    ProbeTold(a, b, t0, last);
    forall t | Concrete(t) && Admits(a.resource, t) ensures Admits(b.resource, t) {
      ProbeTold(a, b, t, first);
    }
    ResourceSubsetComplete(a.resource, b.resource);
    forall c | c in b.caveats ensures Covered(a, c) {
      assert Holds(c, Probe(a, t0, first)) && Holds(c, Probe(a, t0, last));
    }
  }

  /** Inclusion of meanings for all scopes: nothing is authorised at all, or every limit of `b` binds `a`. */
  lemma NeverWiderExactly(a: Scope, b: Scope)
    ensures NeverWider(a, b) <==> (Usable(a) ==> Within(a, b))
  {
    if Usable(a) && NeverWider(a, b) { WithinComplete(a, b); }
    if Usable(a) ==> Within(a, b) {
      forall rq: Request | Authorises(a, rq) ensures Authorises(b, rq) {
        if Usable(a) { WithinSound(a, b, rq); } else { UnusableAuthorisesNothing(a, rq); }
      }
    }
  }

  /**
   The test and inclusion part ways exactly on children that are bound by every limit of the parent
   but leave a caveat unlisted or the written window too wide, and on children that authorise
   nothing and fail a comparison. A caveat left unlisted by such a usable child is a time caveat,
   and the written window of a normal child is never too wide.
   */
  lemma ScopeSubsetDecides(a: Scope, b: Scope)
    ensures Usable(a) ==>
              ((ScopeIsSubset(a, b) <==> NeverWider(a, b)) <==> !(Within(a, b) && (Omits(a, b) || Overhangs(a, b))))
    ensures !Usable(a) ==>
              ((ScopeIsSubset(a, b) <==> NeverWider(a, b)) <==>
               a.action == b.action && ResourceIsSubset(a.resource, b.resource) && !Omits(a, b) && !Overhangs(a, b))
    ensures Within(a, b) ==> forall c | c in b.caveats && c !in a.caveats :: Timed(c)
    ensures Normal(a) && Within(a, b) ==> !Overhangs(a, b)
  {
    NeverWiderExactly(a, b);
    EffectiveBounds(a);
    if ScopeIsSubset(a, b) { ScopeSubsetSound(a, b); }
    hide NeverWider, ResourceIsSubset;
    assert ScopeIsSubset(a, b) <==>
           a.action == b.action && ResourceIsSubset(a.resource, b.resource) && !Omits(a, b) && !Overhangs(a, b);
  }

  /** A usable child that lists the parent's caveats and whose window is normal is judged exactly. */
  lemma ListedIsDecided(a: Scope, b: Scope)
    requires Usable(a) && Normal(a) && forall c | c in b.caveats && Timed(c) :: c in a.caveats
    ensures ScopeIsSubset(a, b) <==> NeverWider(a, b)
  {
    hide NeverWider, ScopeIsSubset;
    ScopeSubsetDecides(a, b);
  }

  /** Without the repeated time caveat the test rejects a child that is in fact no wider. */
  lemma ScopeSubsetIncomplete(r: Resource)
    requires WellFormed(r)
    ensures var child := Scope(Read, r, TimeWindow(0, 50), []);
            var parent := Scope(Read, r, TimeWindow(0, 100), [ExpiresAt(50)]);
            NeverWider(child, parent) && !ScopeIsSubset(child, parent)
  {
    var child := Scope(Read, r, TimeWindow(0, 50), []);
    var parent := Scope(Read, r, TimeWindow(0, 100), [ExpiresAt(50)]);
    assert ExpiresAt(50) in parent.caveats;
  }

  /** Nor does it see that a child's own time caveat keeps it inside the parent's window. */
  lemma ScopeSubsetOverhang(r: Resource)
    requires WellFormed(r)
    ensures var child := Scope(Read, r, TimeWindow(0, 100), [ExpiresAt(50)]);
            var parent := Scope(Read, r, TimeWindow(0, 50), []);
            NeverWider(child, parent) && !ScopeIsSubset(child, parent)
  {
    var child := Scope(Read, r, TimeWindow(0, 100), [ExpiresAt(50)]);
    assert ExpiresAt(50) in child.caveats;
  }
}
