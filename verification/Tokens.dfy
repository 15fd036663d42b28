/**
 Signed capability tokens, their full verification, and chains of delegation.

 Encoding, signing and verification are parameters (`Scheme`). The results are about chains of
 any length: links that pass the program's check never widen authority, and a chain built by
 attenuation authorises exactly what its root and all caveats along it allow.
 */
module Tokens {
  import opened Base
  import opened Scopes
  import opened Attenuation
  import Revocation

  type Key = seq<byte>
  type VerifyingKey = seq<byte>
  type Signature = seq<byte>

  datatype Payload = Payload(id: Ident, subject: Ident, issuer: VerifyingKey, parent: Option<Ident>, scope: Scope)

  datatype Token = Token(payload: Payload, signature: Signature)

  datatype Scheme = Scheme(
    encode: Payload -> Option<seq<byte>>,
    publicKey: Key -> VerifyingKey,
    sign: (Key, seq<byte>) -> Signature,
    verify: (VerifyingKey, seq<byte>, Signature) -> bool)
  {
    /** What a signature scheme promises: a signature checks under the matching public key. */
    ghost predicate Correct() {
      forall k, m :: verify(publicKey(k), m, sign(k, m))
    }
  }

  datatype Failure =
    | Attenuating(why: Violation)
    | ScopeNotSubset
    | ParentIdMismatch
    | MalformedToken
    | InvalidSignature
    | Revoked
    | NotYetValid
    | Expired
    | AttestationMismatch

  function SignPayload(sch: Scheme, key: Key, p: Payload): Result<Token, Failure> {
    match sch.encode(p)
    case None => Err(MalformedToken)
    case Some(bytes) => Ok(Token(p, sch.sign(key, bytes)))
  }

  function ChildPayload(sch: Scheme, parent: Token, key: Key, freshId: Ident, scope: Scope): Payload {
    Payload(freshId, parent.payload.subject, sch.publicKey(key), Some(parent.payload.id), scope)
  }

  /** Derive a child token; the fresh identifier is an argument. */
  function Attenuate(sch: Scheme, parent: Token, key: Key, freshId: Ident, cs: seq<Caveat>): Result<Token, Failure> {
    match Fold(parent.payload.scope, cs)
    case Err(v) => Err(Attenuating(v))
    case Ok(scope) =>
      if !ScopeIsSubset(scope, parent.payload.scope) then Err(ScopeNotSubset)
      else SignPayload(sch, key, ChildPayload(sch, parent, key, freshId, scope))
  }

  function VerifyChainLink(parent: Token, child: Token): Result<(), Failure> {
    if child.payload.parent != Some(parent.payload.id) then Err(ParentIdMismatch)
    else if !ScopeIsSubset(child.payload.scope, parent.payload.scope) then Err(ScopeNotSubset)
    else Ok(())
  }

  function VerifySignature(sch: Scheme, tok: Token): Result<(), Failure> {
    match sch.encode(tok.payload)
    case None => Err(MalformedToken)
    case Some(bytes) => if sch.verify(tok.payload.issuer, bytes, tok.signature) then Ok(()) else Err(InvalidSignature)
  }

  /** Signature, revocation, time window, TEE binding, in this order. */
  function VerifyFull(sch: Scheme, tok: Token, now: u64, localNode: Option<Ident>, revoked: set<Ident>): Result<(), Failure> {
    if VerifySignature(sch, tok).Err? then VerifySignature(sch, tok)
    else if tok.payload.id in revoked then Err(Revoked)
    else if now < tok.payload.scope.window.notBefore then Err(NotYetValid)
    else if now >= tok.payload.scope.window.notAfter then Err(Expired)
    else if localNode != Some(tok.payload.subject) then Err(AttestationMismatch)
    else Ok(())
  }

  /** The same verdict, with the revocation question put to the two-tier list. */
  method VerifyAgainstList(sch: Scheme, tok: Token, now: u64, localNode: Option<Ident>, list: Revocation.RevocationList)
    returns (r: Result<(), Failure>)
    requires list.Valid()
    ensures r == VerifyFull(sch, tok, now, localNode, list.full)
    ensures r.Ok? ==> tok.payload.id !in list.full && tok.payload.scope.window.Contains(now)
  {
    var signed := VerifySignature(sch, tok);
    if signed.Err? { return signed; }
    var isRevoked := list.Contains(tok.payload.id);
    if isRevoked { return Err(Revoked); }
    return VerifyFull(sch, tok, now, localNode, {});
  }

  /** The payload encodes and its issuer's key accepts the signature over the encoding. */
  predicate Signed(sch: Scheme, tok: Token) {
    && sch.encode(tok.payload).Some?
    && sch.verify(tok.payload.issuer, sch.encode(tok.payload).value, tok.signature)
  }

  lemma SignatureExactly(sch: Scheme, tok: Token)
    ensures VerifySignature(sch, tok).Ok? <==> Signed(sch, tok)
    ensures VerifySignature(sch, tok) == Err(MalformedToken) <==> sch.encode(tok.payload).None?
    ensures VerifySignature(sch, tok) == Err(InvalidSignature) <==>
              sch.encode(tok.payload).Some?
              && !sch.verify(tok.payload.issuer, sch.encode(tok.payload).value, tok.signature)
  {
  }

  /**
   Every verdict of full verification, each by the first condition that fails: encoding, signature,
   revocation, start of the window, end of the window, node binding.
   */
  lemma VerdictExactly(sch: Scheme, tok: Token, now: u64, localNode: Option<Ident>, revoked: set<Ident>)
    ensures
      var r := VerifyFull(sch, tok, now, localNode, revoked);
      var live := Signed(sch, tok) && tok.payload.id !in revoked;
      var from, until := tok.payload.scope.window.notBefore, tok.payload.scope.window.notAfter;
      && (r == Ok(()) <==> live && from <= now < until && localNode == Some(tok.payload.subject))
      && (r == Err(MalformedToken) <==> sch.encode(tok.payload).None?)
      && (r == Err(InvalidSignature) <==> sch.encode(tok.payload).Some? && !Signed(sch, tok))
      && (r == Err(Revoked) <==> Signed(sch, tok) && tok.payload.id in revoked)
      && (r == Err(NotYetValid) <==> live && now < from)
      && (r == Err(Expired) <==> live && from <= now && until <= now)
      && (r == Err(AttestationMismatch) <==> live && from <= now < until && localNode != Some(tok.payload.subject))
  {
    SignatureExactly(sch, tok);
  }

  lemma LinkExactly(parent: Token, child: Token)
    ensures VerifyChainLink(parent, child).Ok? <==>
              child.payload.parent == Some(parent.payload.id) && ScopeIsSubset(child.payload.scope, parent.payload.scope)
    ensures VerifyChainLink(parent, child) == Err(ParentIdMismatch) <==> child.payload.parent != Some(parent.payload.id)
    ensures VerifyChainLink(parent, child) == Err(ScopeNotSubset) <==>
              child.payload.parent == Some(parent.payload.id) && !ScopeIsSubset(child.payload.scope, parent.payload.scope)
  {
  }

  /** Attenuation succeeds exactly when the endpoint is well formed, the bounds meet and the payload encodes. */
  lemma AttenuateOutcome(sch: Scheme, parent: Token, key: Key, freshId: Ident, cs: seq<Caveat>)
    ensures
      var s := parent.payload.scope;
      var r := Attenuate(sch, parent, key, freshId, cs);
      var bounded := cs == [] || Lower(s.window.notBefore, cs) <= Upper(s.window.notAfter, cs);
      && (WellFormed(s.resource) && bounded ==> Fold(s, cs).Ok?)
      && (r.Ok? <==>
          && WellFormed(s.resource) && bounded
          && sch.encode(Payload(freshId, parent.payload.subject, sch.publicKey(key), Some(parent.payload.id),
                                Fold(s, cs).value)).Some?)
      && (r.Ok? ==>
          && VerifyChainLink(parent, r.value).Ok?
          && r.value.payload == Payload(freshId, parent.payload.subject, sch.publicKey(key), Some(parent.payload.id),
                                        Fold(s, cs).value)
          && sch.encode(r.value.payload).Some?
          && r.value.signature == sch.sign(key, sch.encode(r.value.payload).value))
      && (WellFormed(s.resource) && bounded && r.Err? ==> r.error == MalformedToken)
  {
    var s := parent.payload.scope;
    ResourceSubsetReflexive(s.resource);
    if cs != [] { FoldOutcome(s, cs); }
  }

  // ---- Chains -----------------------------------------------------------------

  /** Root first; every consecutive pair passes the link check. */
  ghost predicate Chain(chain: seq<Token>) {
    forall i | 0 < i < |chain| :: VerifyChainLink(chain[i - 1], chain[i]).Ok?
  }

  lemma {:induction false} ChainSubset(chain: seq<Token>, i: nat, j: nat)
    requires Chain(chain) && i < j < |chain|
    ensures ScopeIsSubset(chain[j].payload.scope, chain[i].payload.scope)
    decreases j - i
  {
    hide ScopeIsSubset;
    assert VerifyChainLink(chain[j - 1], chain[j]).Ok?;
    if i + 1 < j {
      ChainSubset(chain, i, j - 1);
      ScopeSubsetTransitive(chain[j].payload.scope, chain[j - 1].payload.scope, chain[i].payload.scope);
    }
  }

  /** Every token of a checked chain names the one before it. */
  lemma ChainLineage(chain: seq<Token>, i: nat)
    requires Chain(chain) && 0 < i < |chain|
    ensures chain[i].payload.parent == Some(chain[i - 1].payload.id)
  {
    hide ScopeIsSubset;
    assert VerifyChainLink(chain[i - 1], chain[i]).Ok?;
  }

  /** Whatever a later token of a checked chain authorises, every earlier one authorises. */
  lemma ChainNeverWidens(chain: seq<Token>, i: nat, j: nat)
    requires Chain(chain) && i <= j < |chain|
    ensures NeverWider(chain[j].payload.scope, chain[i].payload.scope)
  {
    if i < j {
      ChainSubset(chain, i, j);
      ScopeSubsetSound(chain[j].payload.scope, chain[i].payload.scope);
    }
  }

  /** A leaf accepted at `now` puts `now` inside every ancestor's window. */
  lemma LeafTimeInEveryWindow(sch: Scheme, chain: seq<Token>, now: u64, localNode: Option<Ident>, revoked: set<Ident>, i: nat)
    requires Chain(chain) && i < |chain|
    requires VerifyFull(sch, chain[|chain| - 1], now, localNode, revoked).Ok?
    ensures chain[i].payload.scope.window.Contains(now)
  {
    if i < |chain| - 1 { ChainSubset(chain, i, |chain| - 1); }
  }

  /** One delegation: who signs, the new identifier, the caveats added. */
  datatype Hop = Hop(key: Key, freshId: Ident, caveats: seq<Caveat>)

  ghost predicate Delegated(sch: Scheme, chain: seq<Token>, hops: seq<Hop>) {
    && |chain| == |hops| + 1
    && forall i | 0 <= i < |hops| ::
         Attenuate(sch, chain[i], hops[i].key, hops[i].freshId, hops[i].caveats) == Ok(chain[i + 1])
  }

  function AllCaveats(hops: seq<Hop>): seq<Caveat> {
    if hops == [] then [] else AllCaveats(hops[..|hops| - 1]) + hops[|hops| - 1].caveats
  }

  /** A chain built by attenuation is one fold of all its caveats over the root scope. */
  lemma {:induction false} DelegationIsOneFold(sch: Scheme, chain: seq<Token>, hops: seq<Hop>)
    requires Delegated(sch, chain, hops)
    ensures Fold(chain[0].payload.scope, AllCaveats(hops)) == Ok(chain[|hops|].payload.scope)
    ensures chain[|hops|].payload.subject == chain[0].payload.subject
    decreases |hops|
  {
    if hops != [] {
      var n := |hops| - 1;
      var front := hops[..n];
      assert Delegated(sch, chain[..n + 1], front);
      DelegationIsOneFold(sch, chain[..n + 1], front);
      FoldAppend(chain[0].payload.scope, AllCaveats(front), hops[n].caveats);
      assert Attenuate(sch, chain[n], hops[n].key, hops[n].freshId, hops[n].caveats) == Ok(chain[n + 1]);
    }
  }

  lemma HopMakesLink(sch: Scheme, parent: Token, child: Token, h: Hop)
    requires Attenuate(sch, parent, h.key, h.freshId, h.caveats) == Ok(child)
    ensures VerifyChainLink(parent, child).Ok?
    ensures sch.Correct() ==> VerifySignature(sch, child).Ok?
  {
    AttenuateOutcome(sch, parent, h.key, h.freshId, h.caveats);
  }

  /** Every delegated chain passes the link check at every step, and every derived token is properly signed. */
  lemma DelegationChecks(sch: Scheme, chain: seq<Token>, hops: seq<Hop>)
    requires Delegated(sch, chain, hops)
    ensures Chain(chain)
    ensures sch.Correct() ==> forall i | 0 < i < |chain| :: VerifySignature(sch, chain[i]).Ok?
  {
    forall i | 0 < i < |chain|
      ensures VerifyChainLink(chain[i - 1], chain[i]).Ok?
      ensures sch.Correct() ==> VerifySignature(sch, chain[i]).Ok?
    {
      var h := hops[i - 1];
      assert Attenuate(sch, chain[i - 1], h.key, h.freshId, h.caveats) == Ok(chain[i - 1 + 1]);
      HopMakesLink(sch, chain[i - 1], chain[i], h);
    }
  }

  /**
   End to end: the leaf of a delegated chain authorises a request if and only if the root does
   and all caveats of all hops hold, and it stays bound to the root's subject.
   */
  lemma DelegationExact(sch: Scheme, chain: seq<Token>, hops: seq<Hop>, rq: Request)
    requires Delegated(sch, chain, hops)
    ensures Authorises(chain[|hops|].payload.scope, rq) <==>
              Authorises(chain[0].payload.scope, rq) && forall c | c in AllCaveats(hops) :: Holds(c, rq)
    ensures chain[|hops|].payload.subject == chain[0].payload.subject
  {
    DelegationIsOneFold(sch, chain, hops);
    AttenuationExact(chain[0].payload.scope, AllCaveats(hops), rq);
  }
}
