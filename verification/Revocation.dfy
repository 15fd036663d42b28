/**
 The revocation list: a bit-array Bloom filter in front of an exact set.

 The two hash functions are parameters; nothing is assumed about them. The list answers
 exactly membership in the set of revoked identifiers, whatever they collide on.
 */
module Revocation {
  import opened Base

  const NUM_HASHES := 7

  datatype Hashes = Hashes(h0: Ident -> u64, h1: Ident -> u64)

  /** The i-th probe, with both 64-bit operations wrapping. */
  function Probe(h: Hashes, item: Ident, i: nat, m: nat): (idx: nat)
    requires m > 0
    ensures idx < m
  {
    ((h.h0(item) + (i * h.h1(item)) % TWO_64) % TWO_64) % m
  }

  ghost function Probes(h: Hashes, item: Ident, m: nat): set<nat>
    requires m > 0
  {
    set i | 0 <= i < NUM_HASHES :: Probe(h, item, i, m)
  }

  lemma WrapOnce(x: nat, y: nat)
    ensures (x + y % TWO_64) % TWO_64 == (x + y) % TWO_64
  {
    var q, r := y / TWO_64, y % TWO_64;
    assert x + y == (x + r) + TWO_64 * q;
  }

  /** Seven probes, in an arithmetic progression modulo 2^64 and then reduced to the bit array. */
  lemma ProbesExactly(h: Hashes, item: Ident, m: nat, k: nat)
    requires m > 0
    ensures k in Probes(h, item, m) <==>
              exists i :: 0 <= i <= 6 && k == (h.h0(item) + i * h.h1(item)) % 0x1_0000_0000_0000_0000 % m
  {
    forall i | 0 <= i <= 6
      ensures Probe(h, item, i, m) == (h.h0(item) + i * h.h1(item)) % 0x1_0000_0000_0000_0000 % m
    {
      WrapOnce(h.h0(item), i * h.h1(item));
    }
    if k in Probes(h, item, m) {
      var i :| 0 <= i < NUM_HASHES && k == Probe(h, item, i, m);
      assert 0 <= i <= 6;
    }
    if i :| 0 <= i <= 6 && k == (h.h0(item) + i * h.h1(item)) % 0x1_0000_0000_0000_0000 % m {
      assert k == Probe(h, item, i, m);
    }
  }

  // ---- Bits of a byte array ---------------------------------------------------

  function Mask(bit: nat): bv8
    requires bit < 8
  {
    1 << bit
  }

  predicate BitAt(bytes: seq<bv8>, k: nat)
    requires k < 8 * |bytes|
  {
    bytes[k / 8] & Mask(k % 8) != 0
  }

  ghost function Marks(bytes: seq<bv8>): set<nat> {
    set k | 0 <= k < 8 * |bytes| && BitAt(bytes, k)
  }

  lemma MaskBits(x: bv8, i: nat, j: nat)
    requires i < 8 && j < 8
    ensures ((x | Mask(i)) & Mask(j) != 0) <==> (i == j || x & Mask(j) != 0)
  {
    MaskValues();
    assert Mask(i) in [1, 2, 4, 8, 16, 32, 64, 128];
    assert Mask(j) in [1, 2, 4, 8, 16, 32, 64, 128];
    assert Mask(i) == Mask(j) <==> i == j;
    BitOr(x, Mask(i), Mask(j));
  }

  lemma MaskValues()
    ensures Mask(0) == 1 && Mask(1) == 2 && Mask(2) == 4 && Mask(3) == 8
    ensures Mask(4) == 16 && Mask(5) == 32 && Mask(6) == 64 && Mask(7) == 128
  {
  }

  lemma BitOr(x: bv8, p: bv8, q: bv8)
    requires p == 1 || p == 2 || p == 4 || p == 8 || p == 16 || p == 32 || p == 64 || p == 128
    requires q == 1 || q == 2 || q == 4 || q == 8 || q == 16 || q == 32 || q == 64 || q == 128
    ensures ((x | p) & q != 0) <==> (p == q || x & q != 0)
  {
  }

  /** Setting one bit adds that index and clears none. */
  lemma SetBitMarks(bytes: seq<bv8>, k: nat)
    requires k < 8 * |bytes|
    ensures Marks(bytes[k / 8 := bytes[k / 8] | Mask(k % 8)]) == Marks(bytes) + {k}
  {
    var next := bytes[k / 8 := bytes[k / 8] | Mask(k % 8)];
    forall j | 0 <= j < 8 * |bytes| ensures BitAt(next, j) <==> BitAt(bytes, j) || j == k {
      if j / 8 == k / 8 {
        MaskBits(bytes[k / 8], k % 8, j % 8);
      }
    }
  }

  // ---- The filter -------------------------------------------------------------

  class MicroBloom {
    const hashes: Hashes
    const bits: array<bv8>
    const numBits: nat

    ghost predicate Valid()
    {
      numBits == 8 * bits.Length && numBits > 0
    }

    constructor (hashes: Hashes, expected: nat)
      ensures Valid() && fresh(bits) && Marks(bits[..]) == {}
      ensures this.hashes == hashes
      ensures numBits >= 10 * expected && numBits >= 80 && numBits < 10 * Max(expected, 8) + 8
    {
      var n := Max(expected, 8);
      var m := (n * 10 + 7) / 8 * 8;
      this.hashes := hashes;
      numBits := m;
      bits := new bv8[m / 8](_ => 0);
    }

    /** The index-filling loop: eight slots, of which the first seven are used. */
    method Indices(item: Ident) returns (out: seq<nat>)
      requires Valid()
      ensures |out| == 8
      ensures forall i | 0 <= i < NUM_HASHES :: out[i] == Probe(hashes, item, i, numBits)
      ensures (set i | i in out[..NUM_HASHES]) == Probes(hashes, item, numBits)
    {
      out := [0, 0, 0, 0, 0, 0, 0, 0];
      for i := 0 to NUM_HASHES
        invariant |out| == 8
        invariant forall j | 0 <= j < i :: out[j] == Probe(hashes, item, j, numBits)
      {
        out := out[i := Probe(hashes, item, i, numBits)];
      }
      forall k ensures k in (set x | x in out[..NUM_HASHES]) <==> k in Probes(hashes, item, numBits) {
        if k in out[..NUM_HASHES] {
          var j :| 0 <= j < NUM_HASHES && out[..NUM_HASHES][j] == k;
          assert k == Probe(hashes, item, j, numBits);
        }
        if k in Probes(hashes, item, numBits) {
          var j :| 0 <= j < NUM_HASHES && k == Probe(hashes, item, j, numBits);
          assert out[..NUM_HASHES][j] == k;
        }
      }
    }

    method SetBit(idx: nat)
      requires Valid() && idx < numBits
      modifies bits
      ensures Marks(bits[..]) == old(Marks(bits[..])) + {idx}
    {
      SetBitMarks(bits[..], idx);
      ghost var before := bits[..];
      bits[idx / 8] := bits[idx / 8] | Mask(idx % 8);
      assert bits[..] == before[idx / 8 := before[idx / 8] | Mask(idx % 8)];
    }

    method TestBit(idx: nat) returns (r: bool)
      requires Valid() && idx < numBits
      ensures r <==> idx in Marks(bits[..])
    {
      r := bits[idx / 8] & Mask(idx % 8) != 0;
      assert r == BitAt(bits[..], idx);
    }

    method Insert(item: Ident)
      requires Valid()
      modifies bits
      ensures Marks(bits[..]) == old(Marks(bits[..])) + Probes(hashes, item, numBits)
    {
      hide Marks, Probes;
      var indices := Indices(item);
      for i := 0 to NUM_HASHES
        invariant Marks(bits[..]) == old(Marks(bits[..])) + set x | x in indices[..i]
      {
        SetBit(indices[i]);
        assert indices[..i + 1] == indices[..i] + [indices[i]];
      }
    }

    method MightContain(item: Ident) returns (r: bool)
      requires Valid()
      ensures r <==> Probes(hashes, item, numBits) <= Marks(bits[..])
    {
      var indices := Indices(item);
      for i := 0 to NUM_HASHES
        invariant forall x | x in indices[..i] :: x in Marks(bits[..])
      {
        assert indices[i] in indices[..NUM_HASHES];
        var present := TestBit(indices[i]);
        if !present { return false; }
        assert indices[..i + 1] == indices[..i] + [indices[i]];
      }
      return true;
    }
  }

  class RevocationList {
    const bloom: MicroBloom
    var full: set<Ident>

    /** Every revoked identifier has all its bits set. */
    ghost predicate Valid()
      reads this, bloom.bits
    {
      && bloom.Valid()
      && forall id | id in full :: Probes(bloom.hashes, id, bloom.numBits) <= Marks(bloom.bits[..])
    }

    constructor (hashes: Hashes, expected: nat)
      ensures Valid() && fresh(bloom) && fresh(bloom.bits) && full == {} && Marks(bloom.bits[..]) == {}
      ensures bloom.hashes == hashes && 10 * Max(expected, 8) <= bloom.numBits < 10 * Max(expected, 8) + 8
    {
      bloom := new MicroBloom(hashes, expected);
      full := {};
    }

    method Revoke(id: Ident)
      requires Valid()
      modifies this, bloom.bits
      ensures Valid() && full == old(full) + {id}
      ensures old(Marks(bloom.bits[..])) <= Marks(bloom.bits[..])
      ensures Marks(bloom.bits[..]) == old(Marks(bloom.bits[..])) + Probes(bloom.hashes, id, bloom.numBits)
    {
      bloom.Insert(id);
      full := full + {id};
    }

    /** The filter never hides a revoked identifier, and a false positive is settled by the set. */
    method Contains(id: Ident) returns (r: bool)
      requires Valid()
      ensures r <==> id in full
    {
      var probably := bloom.MightContain(id);
      if !probably { return false; }
      return id in full;
    }
  }

  // ---- Any sequence of revocations --------------------------------------------

  /** The list's state as values: marked bits and exact set. */
  datatype Store = Store(marks: set<nat>, full: set<Ident>)

  ghost function Revoked(h: Hashes, m: nat, st: Store, id: Ident): Store
    requires m > 0
  {
    Store(st.marks + Probes(h, id, m), st.full + {id})
  }

  ghost function Replay(h: Hashes, m: nat, ids: seq<Ident>): Store
    requires m > 0
  {
    if ids == [] then Store({}, {}) else Revoked(h, m, Replay(h, m, ids[..|ids| - 1]), ids[|ids| - 1])
  }

  ghost predicate Answer(h: Hashes, m: nat, st: Store, id: Ident)
    requires m > 0
  {
    Probes(h, id, m) <= st.marks && id in st.full
  }

  /** After any revocations the two-tier answer is plain membership, for every hash pair and size. */
  lemma {:induction false} TwoTiersAgree(h: Hashes, m: nat, ids: seq<Ident>)
    requires m > 0
    ensures forall id :: Answer(h, m, Replay(h, m, ids), id) <==> id in ids
    ensures forall id | id in ids :: Probes(h, id, m) <= Replay(h, m, ids).marks
    ensures Replay(h, m, ids).full == set id | id in ids
    ensures Replay(h, m, ids).marks == set id, k | id in ids && k in Probes(h, id, m) :: k
  {
    if ids != [] {
      var front := ids[..|ids| - 1];
      TwoTiersAgree(h, m, front);
      assert ids == front + [ids[|ids| - 1]];
      assert forall id :: id in ids <==> id in front || id == ids[|ids| - 1];
    }
  }
}
