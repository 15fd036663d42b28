/**
 Deriving a narrower scope by folding caveats over it.

 `Fold` is the program's left-to-right application of caveats, including the two guards that
 can reject a step. The lemmas replace that fold by an order-free description: the window is
 the meet of all bounds, and the child authorises exactly what the parent and every applied
 caveat allow.
 */
module Attenuation {
  import opened Base
  import opened Scopes

  datatype Violation = WindowInverted | InvariantBroken | NotASubset

  function Narrowed(w: TimeWindow, c: Caveat): TimeWindow {
    match c
    case ExpiresAt(t) => if t < w.notAfter then w.(notAfter := t) else w
    case NotBefore(t) => if t > w.notBefore then w.(notBefore := t) else w
    case _ => w
  }

  function ApplyCaveat(s: Scope, c: Caveat): Result<Scope, Violation> {
    var w := Narrowed(s.window, c);
    if w.notBefore > w.notAfter then Err(WindowInverted)
    else
      var child := s.(window := w, caveats := if c in s.caveats then s.caveats else s.caveats + [c]);
      if !ScopeIsSubset(child, s) then Err(InvariantBroken) else Ok(child)
  }

  function Fold(s: Scope, cs: seq<Caveat>): Result<Scope, Violation>
    decreases |cs|
  {
    if cs == [] then Ok(s)
    else match ApplyCaveat(s, cs[0])
      case Err(e) => Err(e)
      case Ok(next) => Fold(next, cs[1..])
  }

  /** The program's loop over `current`. */
  method ApplyCaveats(scope: Scope, caveats: seq<Caveat>) returns (r: Result<Scope, Violation>)
    ensures r == Fold(scope, caveats)
    ensures r.Ok? ==> ScopeIsSubset(r.value, scope) || caveats == []
  {
    var current := scope;
    for i := 0 to |caveats|
      invariant Fold(current, caveats[i..]) == Fold(scope, caveats)
    {
      var step := ApplyCaveat(current, caveats[i]);
      assert caveats[i..][0] == caveats[i] && caveats[i..][1..] == caveats[i + 1..];
      match step
      case Err(e) => return Err(e);
      case Ok(next) => current := next;
    }
    r := Ok(current);
    if caveats != [] { FoldOutcome(scope, caveats); }
  }

  function RestrictResource(s: Scope, r: Resource): Result<Scope, Violation> {
    if !ResourceIsSubset(r, s.resource) then Err(NotASubset) else Ok(s.(resource := r))
  }

  // ---- What the fold computes -------------------------------------------------

  /** The child of a successful fold, described without the fold. */
  ghost predicate IsMeet(child: Scope, s: Scope, cs: seq<Caveat>) {
    && child.action == s.action
    && child.resource == s.resource
    && child.window == TimeWindow(Lower(s.window.notBefore, cs), Upper(s.window.notAfter, cs))
    && s.caveats <= child.caveats
    && (forall c :: c in child.caveats <==> c in s.caveats || c in cs)
    && (forall i, j | |s.caveats| <= i < j < |child.caveats| :: child.caveats[i] != child.caveats[j])
    && (forall i | |s.caveats| <= i < |child.caveats| :: child.caveats[i] !in s.caveats)
  }

  lemma StepOutcome(s: Scope, c: Caveat)
    ensures ApplyCaveat(s, c).Ok? <==>
              && WellFormed(s.resource)
              && Lower(s.window.notBefore, [c]) <= Upper(s.window.notAfter, [c])
    ensures ApplyCaveat(s, c).Ok? ==> IsMeet(ApplyCaveat(s, c).value, s, [c])
    ensures ApplyCaveat(s, c).Err? ==>
              (ApplyCaveat(s, c).error == WindowInverted <==> Lower(s.window.notBefore, [c]) > Upper(s.window.notAfter, [c]))
              && (ApplyCaveat(s, c).error == InvariantBroken <==> Lower(s.window.notBefore, [c]) <= Upper(s.window.notAfter, [c]))
  {
    ResourceSubsetReflexive(s.resource);
    assert Lower(s.window.notBefore, [c]) == Narrowed(s.window, c).notBefore;
    assert Upper(s.window.notAfter, [c]) == Narrowed(s.window, c).notAfter;
  }

  lemma MeetCompose(s: Scope, c: Caveat, mid: Scope, rest: seq<Caveat>, child: Scope)
    requires IsMeet(mid, s, [c]) && IsMeet(child, mid, rest)
    ensures IsMeet(child, s, [c] + rest)
  {
    assert ([c] + rest)[1..] == rest && [c][1..] == [];
    assert Lower(s.window.notBefore, [c] + rest) == Lower(Lower(s.window.notBefore, [c]), rest);
    assert Upper(s.window.notAfter, [c] + rest) == Upper(Upper(s.window.notAfter, [c]), rest);
    assert child.caveats[..|s.caveats|] == mid.caveats[..|s.caveats|];
    assert forall i | 0 <= i < |mid.caveats| :: child.caveats[i] == mid.caveats[i];
    forall i, j | |s.caveats| <= i < j < |child.caveats| ensures child.caveats[i] != child.caveats[j] {
      if i < |mid.caveats| <= j { assert child.caveats[i] in mid.caveats; }
    }
    forall i | |s.caveats| <= i < |child.caveats| ensures child.caveats[i] !in s.caveats {
      if i >= |mid.caveats| { assert child.caveats[i] !in mid.caveats; }
    }
  }

  /** Success and result of the whole fold: it fails exactly on a malformed endpoint or clashing bounds. */
  lemma {:induction false} FoldOutcome(s: Scope, cs: seq<Caveat>)
    requires cs != []
    ensures Fold(s, cs).Ok? <==>
              WellFormed(s.resource) && Lower(s.window.notBefore, cs) <= Upper(s.window.notAfter, cs)
    ensures Fold(s, cs).Ok? ==> IsMeet(Fold(s, cs).value, s, cs) && ScopeIsSubset(Fold(s, cs).value, s)
    decreases |cs|
  {
    var c, rest := cs[0], cs[1..];
    assert cs == [c] + rest;
    StepOutcome(s, c);
    if ApplyCaveat(s, c).Err? {
      LowerIsLatest(Lower(s.window.notBefore, [c]), rest);
      UpperIsEarliest(Upper(s.window.notAfter, [c]), rest);
    } else if rest != [] {
      var mid := ApplyCaveat(s, c).value;
      FoldOutcome(mid, rest);
      if Fold(mid, rest).Ok? {
        MeetCompose(s, c, mid, rest, Fold(mid, rest).value);
        ScopeSubsetTransitive(Fold(mid, rest).value, mid, s);
      }
    } else {
      assert Fold(s, cs) == ApplyCaveat(s, c);
    }
  }

  /**
   Attenuation is exact: a derived child authorises a request if and only if the parent does
   and every applied caveat holds of it.
   */
  lemma AttenuationExact(s: Scope, cs: seq<Caveat>, rq: Request)
    requires Fold(s, cs).Ok?
    ensures Authorises(Fold(s, cs).value, rq) <==> Authorises(s, rq) && forall c | c in cs :: Holds(c, rq)
  {
    if cs != [] {
      FoldOutcome(s, cs);
      LowerIsLatest(s.window.notBefore, cs);
      UpperIsEarliest(s.window.notAfter, cs);
    }
  }

  lemma BothNonEmpty(cs: seq<Caveat>, ds: seq<Caveat>)
    requires cs != [] && forall c :: c in cs <==> c in ds
    ensures ds != []
  {
    assert cs[0] in ds;
  }

  /** Only which caveats are applied matters: any order and any repetition agree. */
  lemma OrderIndependent(s: Scope, cs: seq<Caveat>, ds: seq<Caveat>)
    requires forall c :: c in cs <==> c in ds
    ensures Fold(s, cs).Ok? <==> Fold(s, ds).Ok?
    ensures Fold(s, cs).Ok? ==>
              && Fold(s, cs).value.window == Fold(s, ds).value.window
              && Fold(s, cs).value.action == Fold(s, ds).value.action
              && Fold(s, cs).value.resource == Fold(s, ds).value.resource
              && (forall c :: c in Fold(s, cs).value.caveats <==> c in Fold(s, ds).value.caveats)
              && |Fold(s, cs).value.caveats| == |Fold(s, ds).value.caveats|
  {
    if cs == [] {
      if ds != [] { BothNonEmpty(ds, cs); }
    } else {
      BothNonEmpty(cs, ds);
      FoldOutcome(s, cs);
      FoldOutcome(s, ds);
      BoundsOfSet(s.window.notBefore, cs, ds);
      BoundsOfSet(s.window.notAfter, cs, ds);
      if Fold(s, cs).Ok? { SameLength(s.caveats, Fold(s, cs).value.caveats, Fold(s, ds).value.caveats); }
    }
  }

  lemma DistinctCard(xs: seq<Caveat>)
    requires forall i, j | 0 <= i < j < |xs| :: xs[i] != xs[j]
    ensures |set x | x in xs| == |xs|
  {
    if xs != [] {
      var init := xs[..|xs| - 1];
      DistinctCard(init);
      assert (set x | x in xs) == (set x | x in init) + {xs[|xs| - 1]};
    }
  }

  lemma SameLength(base: seq<Caveat>, xs: seq<Caveat>, ys: seq<Caveat>)
    requires base <= xs && base <= ys && forall c :: c in xs <==> c in ys
    requires forall i, j | |base| <= i < j < |xs| :: xs[i] != xs[j]
    requires forall i, j | |base| <= i < j < |ys| :: ys[i] != ys[j]
    requires forall i | |base| <= i < |xs| :: xs[i] !in base
    requires forall i | |base| <= i < |ys| :: ys[i] !in base
    ensures |xs| == |ys|
  {
    var x, y := xs[|base|..], ys[|base|..];
    assert xs == base + x && ys == base + y;
    DistinctCard(x);
    DistinctCard(y);
    assert (set c | c in x) == (set c | c in y) by {
      forall c ensures c in x <==> c in y {
        assert c in x <==> c in xs && c !in base;
        assert c in y <==> c in ys && c !in base;
      }
    }
  }

  lemma {:induction false} NoNewBound(s: Scope, cs: seq<Caveat>)
    requires WellFormed(s.resource) && s.window.notBefore <= s.window.notAfter
    requires forall c | c in cs :: c in s.caveats && Narrowed(s.window, c) == s.window
    ensures Fold(s, cs) == Ok(s)
  {
    if cs != [] {
      ResourceSubsetReflexive(s.resource);
      assert cs[0] in cs;
      assert ApplyCaveat(s, cs[0]) == Ok(s);
      NoNewBound(s, cs[1..]);
    }
  }

  /** Applying the same list again changes nothing. */
  lemma Idempotent(s: Scope, cs: seq<Caveat>)
    requires Fold(s, cs).Ok?
    ensures Fold(Fold(s, cs).value, cs) == Fold(s, cs)
  {
    if cs != [] {
      FoldOutcome(s, cs);
      LowerIsLatest(s.window.notBefore, cs);
      UpperIsEarliest(s.window.notAfter, cs);
      NoNewBound(Fold(s, cs).value, cs);
    }
  }

  /** Two attenuations in a row are one attenuation by both lists. */
  lemma {:induction false} FoldAppend(s: Scope, cs: seq<Caveat>, ds: seq<Caveat>)
    ensures Fold(s, cs + ds) == (match Fold(s, cs) case Err(e) => Err(e) case Ok(mid) => Fold(mid, ds))
    decreases |cs|
  {
    if cs == [] {
      assert cs + ds == ds;
    } else {
      assert (cs + ds)[0] == cs[0] && (cs + ds)[1..] == cs[1..] + ds;
      match ApplyCaveat(s, cs[0])
      case Err(_) =>
      case Ok(next) => FoldAppend(next, cs[1..], ds);
    }
  }

  /** Attenuation keeps scopes in the form on which the subset test is exact. */
  lemma FoldKeepsNormal(s: Scope, cs: seq<Caveat>)
    requires Normal(s) && Fold(s, cs).Ok?
    ensures Normal(Fold(s, cs).value)
  {
    if cs != [] {
      FoldOutcome(s, cs);
      LowerIsLatest(s.window.notBefore, cs);
      UpperIsEarliest(s.window.notAfter, cs);
    }
  }

  /** Restricting the resource is the intersection with it, and is refused exactly when it would widen. */
  lemma RestrictExact(s: Scope, r: Resource, rq: Request)
    ensures RestrictResource(s, r) == (if ResourceIsSubset(r, s.resource) then Ok(s.(resource := r)) else Err(NotASubset))
    ensures RestrictResource(s, r).Ok? ==>
              (Authorises(RestrictResource(s, r).value, rq) <==> Authorises(s, rq) && Admits(r, rq.target))
    ensures Inhabited(r) && RestrictResource(s, r).Err? ==>
              exists t :: Concrete(t) && Admits(r, t) && !Admits(s.resource, t)
  {
    if ResourceIsSubset(r, s.resource) {
      ResourceSubsetSound(r, s.resource);
    } else if Inhabited(r) {
      ResourceSubsetDecides(r, s.resource);
    }
  }
}
