/**
 * The KYCPass circuit as a constraint relation over a prime field, and the
 * function it is meant to compute. The Switcher component is taken by its
 * contract: selector 0 keeps the two inputs, selector 1 swaps them.
 */
module Circuit {
  import opened Hashing
  import opened Merkle

  // ----------------------------------------------------------- prime fields

  ghost predicate IsPrime(p: int) {
    p > 1 && forall d, e :: 1 < d < p && 1 < e < p ==> d * e != p
  }

  ghost predicate Divides(d: int, n: int) {
    exists q: int :: d * q == n
  }

  /** The least positive m with p | m * b among 1 .. bound, given that bound is one. */
  ghost function LeastMultiplier(p: int, b: int, bound: nat): (m: nat)
    requires bound > 0 && Divides(p, bound * b)
    ensures 0 < m <= bound && Divides(p, m * b)
    ensures forall k: nat :: 0 < k < m ==> !Divides(p, k * b)
    decreases bound
  {
    if k: nat :| 0 < k < bound && Divides(p, k * b) then LeastMultiplier(p, b, k) else bound
  }

  lemma DividesDifference(p: int, x: int, y: int, q: int)
    requires Divides(p, x) && Divides(p, y)
    ensures Divides(p, x - q * y)
  {
    var a :| p * a == x;
    var c :| p * c == y;
    assert p * (a - q * c) == x - q * y by {
      assert p * (q * c) == q * (p * c);
      assert p * (a - q * c) == p * a - p * (q * c);
    }
  }

  /** The least multiplier divides every multiplier. */
  lemma LeastDivides(p: int, b: int, m: nat, n: nat)
    requires m > 0 && Divides(p, m * b) && Divides(p, n * b)
    requires forall k: nat :: 0 < k < m ==> !Divides(p, k * b)
    ensures m * (n / m) == n
  {
    var q, s := n / m, n % m;
    assert n == m * q + s;
    DividesDifference(p, n * b, m * b, q);
    assert n * b - q * (m * b) == s * b by {
      assert (m * q + s) * b == (m * q) * b + s * b;
      assert q * (m * b) == (m * q) * b;
    }
    assert Divides(p, s * b);
  }

  lemma Grows(p: int, q: int)
    requires p > 0
    ensures q >= 1 ==> p * q >= p
    ensures q <= -1 ==> p * q <= -p
  {
    if q >= 1 {
      assert p * q == p + p * (q - 1);
      assert p * (q - 1) >= 0;
    } else if q <= -1 {
      assert p * (-q) == p + p * (-q - 1);
      assert p * (-q - 1) >= 0;
      assert p * (-q) == -(p * q);
    }
  }

  /** A multiple of p strictly between -p and p is 0. */
  lemma SmallMultiple(p: int, q: int)
    requires p > 0 && -p < p * q < p
    ensures q == 0
  {
    Grows(p, q);
  }

  lemma ProperFactor(m: int, e: int)
    requires m > 1 && m * e > m
    ensures 1 < e < m * e
  {
    Grows(m, e);
    assert m * e == e + (m - 1) * e;
    Grows(m - 1, e);
  }

  /** Euclid's lemma. */
  lemma EuclidsLemma(p: int, a: int, b: int)
    requires IsPrime(p) && 0 < a < p && Divides(p, a * b)
    ensures Divides(p, b)
  {
    assert Divides(p, p * b);
    var m := LeastMultiplier(p, b, a);
    LeastDivides(p, b, m, p);
    if m > 1 {
      ProperFactor(m, p / m);
    }
    assert 1 * b == b;
  }

  /** x * (1 - x) === 0 over the field of order p. */
  predicate BooleanConstraint(p: int, x: int)
    requires p > 0
  {
    (x * (1 - x)) % p == 0
  }

  lemma ZeroRemainder(p: int, n: int)
    requires p > 0 && n % p == 0
    ensures Divides(p, n)
  {
    assert p * (n / p) == n;
  }

  /** Over a prime field the boolean constraint admits exactly the two bits. */
  lemma BooleanIsBit(p: int, x: int)
    requires IsPrime(p) && InField(p, x)
    ensures BooleanConstraint(p, x) <==> x == 0 || x == 1
  {
    if BooleanConstraint(p, x) && x != 0 {
      ZeroRemainder(p, x * (1 - x));
      EuclidsLemma(p, x, 1 - x);
      var q :| p * q == 1 - x;
      SmallMultiple(p, q);
    }
    if x == 0 || x == 1 {
      assert x * (1 - x) == 0;
    }
  }

  // ------------------------------------------------------- Merkle inclusion

  /** Switcher by its contract. Other selectors are left free; the boolean constraint excludes them. */
  predicate Switched(sel: int, left: int, right: int, outL: int, outR: int) {
    && (sel == 0 ==> outL == left && outR == right)
    && (sel == 1 ==> outL == right && outR == left)
  }

  /** The intermediate signals of MerkleInclusion. */
  datatype InclusionWires = InclusionWires(levelHashes: seq<int>, outL: seq<int>, outR: seq<int>)

  predicate LevelHolds(h: Hasher, p: int, elements: seq<int>, bits: seq<int>, w: InclusionWires, i: nat)
    requires p > 0
    requires i < |bits| == |elements| == |w.outL| == |w.outR| && |w.levelHashes| == |bits| + 1
  {
    && BooleanConstraint(p, bits[i])
    && Switched(bits[i], w.levelHashes[i], elements[i], w.outL[i], w.outR[i])
    && w.levelHashes[i + 1] == h.pair(w.outL[i], w.outR[i])
  }

  ghost predicate InclusionHolds(h: Hasher, p: int, leaf: int, elements: seq<int>, bits: seq<int>,
                                 w: InclusionWires, root: int)
    requires p > 0
  {
    && |bits| == |elements| == |w.outL| == |w.outR|
    && |w.levelHashes| == |bits| + 1
    && w.levelHashes[0] == leaf
    && (forall i: nat :: i < |bits| ==> LevelHolds(h, p, elements, bits, w, i))
    && root == w.levelHashes[|bits|]
  }

  /** The signals a witness generator assigns. */
  function Wires(h: Hasher, leaf: int, elements: seq<int>, bits: seq<int>): (w: InclusionWires)
    requires |elements| == |bits|
    ensures |w.outL| == |w.outR| == |bits| && |w.levelHashes| == |bits| + 1
    ensures w.levelHashes[0] == leaf
    ensures w.levelHashes[|bits|] == Fold(h, leaf, elements, bits)
  {
    if |bits| == 0 then InclusionWires([leaf], [], []) else
      var n := |bits| - 1;
      var below := Wires(h, leaf, elements[..n], bits[..n]);
      var pair := Ordered(below.levelHashes[n], elements[n], bits[n]);
      InclusionWires(below.levelHashes + [h.pair(pair.0, pair.1)], below.outL + [pair.0], below.outR + [pair.1])
  }

  /** The signals of the first |bits| - 1 levels. */
  function Lower(w: InclusionWires): InclusionWires
    requires |w.levelHashes| > 0 && |w.outL| > 0 && |w.outR| > 0
  {
    InclusionWires(w.levelHashes[..|w.levelHashes| - 1], w.outL[..|w.outL| - 1], w.outR[..|w.outR| - 1])
  }

  lemma LevelOfLower(h: Hasher, p: int, elements: seq<int>, bits: seq<int>, w: InclusionWires, i: nat)
    requires p > 0
    requires |bits| == |elements| == |w.outL| == |w.outR| && |w.levelHashes| == |bits| + 1
    requires i < |bits| - 1
    ensures LevelHolds(h, p, elements[..|bits| - 1], bits[..|bits| - 1], Lower(w), i)
            <==> LevelHolds(h, p, elements, bits, w, i)
  {
  }

  /** The top level's signals, once the levels below are settled. */
  lemma TopLevelForced(h: Hasher, p: int, leaf: int, elements: seq<int>, bits: seq<int>, w: InclusionWires)
    requires p > 0 && |bits| > 0
    requires |bits| == |elements| == |w.outL| == |w.outR| && |w.levelHashes| == |bits| + 1
    requires bits[|bits| - 1] == 0 || bits[|bits| - 1] == 1
    requires LevelHolds(h, p, elements, bits, w, |bits| - 1)
    requires Lower(w) == Wires(h, leaf, elements[..|bits| - 1], bits[..|bits| - 1])
    ensures w == Wires(h, leaf, elements, bits)
  {
    var n := |bits| - 1;
    assert w.levelHashes == w.levelHashes[..n + 1] + [w.levelHashes[n + 1]];
    assert w.outL == w.outL[..n] + [w.outL[n]];
    assert w.outR == w.outR[..n] + [w.outR[n]];
  }

  /** Satisfying the constraints forces bits, and forces every signal. */
  lemma {:induction false} ConstraintsForceWires(h: Hasher, p: int, leaf: int, elements: seq<int>, bits: seq<int>,
                                                 w: InclusionWires, root: int)
    requires IsPrime(p) && (forall i :: 0 <= i < |bits| ==> InField(p, bits[i]))
    requires InclusionHolds(h, p, leaf, elements, bits, w, root)
    ensures AllBits(bits) && w == Wires(h, leaf, elements, bits) && root == Fold(h, leaf, elements, bits)
    decreases |bits|
  {
    if |bits| == 0 {
      assert w.levelHashes == [leaf];
    } else {
      var n := |bits| - 1;
      forall i: nat | i < n
        ensures LevelHolds(h, p, elements[..n], bits[..n], Lower(w), i)
      {
        LevelOfLower(h, p, elements, bits, w, i);
      }
      ConstraintsForceWires(h, p, leaf, elements[..n], bits[..n], Lower(w), w.levelHashes[n]);
      assert LevelHolds(h, p, elements, bits, w, n);
      BooleanIsBit(p, bits[n]);
      assert bits == bits[..n] + [bits[n]];
      TopLevelForced(h, p, leaf, elements, bits, w);
    }
  }

  lemma WiresTop(h: Hasher, p: int, leaf: int, elements: seq<int>, bits: seq<int>)
    requires p > 0 && |elements| == |bits| > 0
    requires bits[|bits| - 1] == 0 || bits[|bits| - 1] == 1
    ensures Lower(Wires(h, leaf, elements, bits)) == Wires(h, leaf, elements[..|bits| - 1], bits[..|bits| - 1])
    ensures LevelHolds(h, p, elements, bits, Wires(h, leaf, elements, bits), |bits| - 1)
  {
    var n := |bits| - 1;
    var below := Wires(h, leaf, elements[..n], bits[..n]);
    var w := Wires(h, leaf, elements, bits);
    assert w.levelHashes[..n + 1] == below.levelHashes;
    assert w.outL[..n] == below.outL && w.outR[..n] == below.outR;
    assert bits[n] * (1 - bits[n]) == 0;
  }

  lemma LevelsExtend(h: Hasher, p: int, elements: seq<int>, bits: seq<int>, w: InclusionWires,
                     below: seq<int>, belowBits: seq<int>)
    requires p > 0 && |bits| > 0
    requires |bits| == |elements| == |w.outL| == |w.outR| && |w.levelHashes| == |bits| + 1
    requires below == elements[..|bits| - 1] && belowBits == bits[..|bits| - 1]
    requires forall i: nat :: i < |bits| - 1 ==> LevelHolds(h, p, below, belowBits, Lower(w), i)
    requires LevelHolds(h, p, elements, bits, w, |bits| - 1)
    ensures forall i: nat :: i < |bits| ==> LevelHolds(h, p, elements, bits, w, i)
  {
    forall i: nat | i < |bits|
      ensures LevelHolds(h, p, elements, bits, w, i)
    {
      if i < |bits| - 1 {
        LevelOfLower(h, p, elements, bits, w, i);
      }
    }
  }

  /** The generator's signals satisfy every constraint when the path is made of bits. */
  lemma {:induction false} WiresSatisfy(h: Hasher, p: int, leaf: int, elements: seq<int>, bits: seq<int>)
    requires p > 0 && |elements| == |bits| && AllBits(bits)
    ensures InclusionHolds(h, p, leaf, elements, bits, Wires(h, leaf, elements, bits), Fold(h, leaf, elements, bits))
    decreases |bits|
  {
    if |bits| == 0 {
    } else {
      var n := |bits| - 1;
      WiresSatisfy(h, p, leaf, elements[..n], bits[..n]);
      WiresTop(h, p, leaf, elements, bits);
      LevelsExtend(h, p, elements, bits, Wires(h, leaf, elements, bits), elements[..n], bits[..n]);
    }
  }

  /**
   * Over a prime field, an assignment satisfies MerkleInclusion exactly when the
   * path is made of bits, every signal is the generator's, and the root is the
   * left/right fold of the leaf.
   */
  lemma InclusionIsFold(h: Hasher, p: int, leaf: int, elements: seq<int>, bits: seq<int>, w: InclusionWires, root: int)
    requires IsPrime(p) && |elements| == |bits|
    requires forall i :: 0 <= i < |bits| ==> InField(p, bits[i])
    ensures InclusionHolds(h, p, leaf, elements, bits, w, root)
            <==> AllBits(bits) && w == Wires(h, leaf, elements, bits) && root == Fold(h, leaf, elements, bits)
  {
    if InclusionHolds(h, p, leaf, elements, bits, w, root) {
      ConstraintsForceWires(h, p, leaf, elements, bits, w, root);
    }
    if AllBits(bits) {
      WiresSatisfy(h, p, leaf, elements, bits);
    }
  }

  // ---------------------------------------------------------------- KYCPass

  /** The four public signals, in the order the verifier receives them. */
  datatype Signals = Signals(nullifier: int, root: int, holderAddr: int, expiry: int)

  datatype Witness = Witness(holderSecret: int, issuerId: int, elements: seq<int>, bits: seq<int>)

  /** The intermediate signals of KYCPass. */
  datatype PassWires = PassWires(leafHash: int, inclusion: InclusionWires, addrSquared: int)

  predicate SignalsInField(p: int, s: Signals) {
    InField(p, s.nullifier) && InField(p, s.root) && InField(p, s.holderAddr) && InField(p, s.expiry)
  }

  predicate WitnessInField(p: int, depth: nat, w: Witness) {
    && InField(p, w.holderSecret) && InField(p, w.issuerId)
    && |w.elements| == |w.bits| == depth
    && (forall i :: 0 <= i < depth ==> InField(p, w.elements[i]))
    && (forall i :: 0 <= i < depth ==> InField(p, w.bits[i]))
  }

  /** Every constraint of KYCPass(depth) under one assignment. */
  ghost predicate ConstraintsHold(h: Hasher, p: int, depth: nat, s: Signals, w: Witness, x: PassWires)
    requires p > 0
  {
    && SignalsInField(p, s) && WitnessInField(p, depth, w)
    && x.leafHash == h.triple(w.holderSecret, s.expiry, w.issuerId)
    && InclusionHolds(h, p, x.leafHash, w.elements, w.bits, x.inclusion, s.root)
    && s.nullifier == h.pair(w.holderSecret, s.root)
    && x.addrSquared == (s.holderAddr * s.holderAddr) % p
  }

  /** What the circuit is meant to say: the credential leaf opens the root, and the nullifier is derived from it. */
  predicate Pass(h: Hasher, p: int, depth: nat, s: Signals, w: Witness) {
    && SignalsInField(p, s) && WitnessInField(p, depth, w)
    && AllBits(w.bits)
    && Fold(h, h.triple(w.holderSecret, s.expiry, w.issuerId), w.elements, w.bits) == s.root
    && s.nullifier == h.pair(w.holderSecret, s.root)
  }

  /**
   * The constraint system accepts public signals and a private witness exactly
   * when Pass holds of them, and then through one assignment only.
   */
  lemma ConstraintsArePass(h: Hasher, p: int, depth: nat, s: Signals, w: Witness)
    requires IsPrime(p)
    ensures Pass(h, p, depth, s, w) <==> exists x :: ConstraintsHold(h, p, depth, s, w, x)
    ensures forall x, y :: ConstraintsHold(h, p, depth, s, w, x) && ConstraintsHold(h, p, depth, s, w, y) ==> x == y
  {
    var leaf := h.triple(w.holderSecret, s.expiry, w.issuerId);
    forall x | ConstraintsHold(h, p, depth, s, w, x)
      ensures Pass(h, p, depth, s, w) && x.inclusion == Wires(h, leaf, w.elements, w.bits)
    {
      InclusionIsFold(h, p, leaf, w.elements, w.bits, x.inclusion, s.root);
    }
    if Pass(h, p, depth, s, w) {
      var x := PassWires(leaf, Wires(h, leaf, w.elements, w.bits), (s.holderAddr * s.holderAddr) % p);
      InclusionIsFold(h, p, leaf, w.elements, w.bits, x.inclusion, s.root);
      assert ConstraintsHold(h, p, depth, s, w, x);
    }
  }
}
