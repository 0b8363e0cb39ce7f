/**
 * The mathematical object that the Go tree, the JavaScript tree and the circuit
 * all compute with: the full binary tree over leaves padded with 0.
 */
module Merkle {
  import opened Prelude
  import opened Hashing

  /** The root of an all-empty subtree of height k. */
  function Zero(h: Hasher, k: nat): int {
    if k == 0 then 0 else h.pair(Zero(h, k - 1), Zero(h, k - 1))
  }

  /** The zero-padded leaf at position i. */
  function At(m: map<int, int>, i: int): int {
    if i in m then m[i] else 0
  }

  /** The hash at height k, position j of the full padded tree. */
  function Node(h: Hasher, m: map<int, int>, k: nat, j: int): int {
    if k == 0 then At(m, j) else h.pair(Node(h, m, k - 1, 2 * j), Node(h, m, k - 1, 2 * j + 1))
  }

  /** Leaves appended at 0, 1, 2, ... */
  function SeqMap(s: seq<int>): map<int, int> {
    map i: int | 0 <= i < |s| :: s[i]
  }

  /** i shifted right by k bits: the position of leaf i's ancestor at height k. */
  function Shr(i: int, k: nat): int {
    if k == 0 then i else Shr(i, k - 1) / 2
  }

  /** The position of the other child of the same parent. */
  function Sib(j: int): int {
    if j % 2 == 0 then j + 1 else j - 1
  }

  /** The child of position j that a path bit leads to, and the one it passes by. */
  function Child(j: int, bit: int): int {
    if bit == 0 then 2 * j else 2 * j + 1
  }

  function OtherChild(j: int, bit: int): int {
    if bit == 0 then 2 * j + 1 else 2 * j
  }

  lemma ChildrenAreSiblings(j: int, bit: int)
    ensures Sib(Child(j, bit)) == OtherChild(j, bit)
    ensures Child(j, bit) / 2 == j && (bit == 0 || bit == 1 ==> Child(j, bit) % 2 == bit)
  {
  }

  // ---------------------------------------------------------------- positions

  lemma {:induction false} ShrFront(i: int, k: nat)
    ensures Shr(i, k + 1) == Shr(i / 2, k)
  {
    if k == 0 {
    } else {
      ShrFront(i, k - 1);
    }
  }

  lemma HalfOpen(i: int, t: int, q: int)
    ensures t <= i / 2 < t + q <==> 2 * t <= i < 2 * t + 2 * q
  {
  }

  lemma DoubleProduct(j: int, q: int)
    ensures j * (2 * q) == 2 * (j * q)
  {
  }

  /** The leaves below the node at height k, position j are j * 2^k .. (j + 1) * 2^k - 1. */
  lemma {:induction false} ShrRange(i: int, k: nat, j: int)
    ensures Shr(i, k) == j <==> j * Pow2(k) <= i < j * Pow2(k) + Pow2(k)
    decreases k
  {
    if k == 0 {
    } else {
      ShrFront(i, k - 1);
      ShrRange(i / 2, k - 1, j);
      HalfOpen(i, j * Pow2(k - 1), Pow2(k - 1));
      DoubleProduct(j, Pow2(k - 1));
    }
  }

  /** The leaves below the root position are exactly 0 .. 2^k - 1. */
  lemma ShrRoot(i: int, k: nat)
    ensures Shr(i, k) == 0 <==> 0 <= i < Pow2(k)
  {
    ShrRange(i, k, 0);
  }

  lemma {:induction false} ShrAgree(a: int, b: int, low: nat, high: nat)
    requires low <= high && Shr(a, low) == Shr(b, low)
    ensures Shr(a, high) == Shr(b, high)
    decreases high
  {
    if low < high {
      ShrAgree(a, b, low, high - 1);
    }
  }

  lemma {:induction false} ShrNonNegative(i: int, k: nat)
    ensures 0 <= i ==> 0 <= Shr(i, k) <= i
  {
    if k == 0 {
    } else {
      ShrNonNegative(i, k - 1);
    }
  }

  // ------------------------------------------------------- what a node depends on

  /** A node is a function of the padded leaves below it and of nothing else. */
  lemma {:induction false} NodeDepends(h: Hasher, a: map<int, int>, b: map<int, int>, k: nat, j: int)
    requires forall i :: Shr(i, k) == j ==> At(a, i) == At(b, i)
    ensures Node(h, a, k, j) == Node(h, b, k, j)
  {
    if k == 0 {
      assert Shr(j, 0) == j;
    } else {
      forall i | Shr(i, k - 1) == 2 * j || Shr(i, k - 1) == 2 * j + 1
        ensures At(a, i) == At(b, i)
      {
        assert Shr(i, k) == j;
      }
      NodeDepends(h, a, b, k - 1, 2 * j);
      NodeDepends(h, a, b, k - 1, 2 * j + 1);
    }
  }

  lemma {:induction false} NodeOfNothing(h: Hasher, k: nat, j: int)
    ensures Node(h, map[], k, j) == Zero(h, k)
  {
    if k == 0 {
    } else {
      NodeOfNothing(h, k - 1, 2 * j);
      NodeOfNothing(h, k - 1, 2 * j + 1);
    }
  }

  /** A subtree whose leaves are all zero hashes to the zero ladder. */
  lemma EmptySubtree(h: Hasher, m: map<int, int>, k: nat, j: int)
    requires forall i :: Shr(i, k) == j ==> At(m, i) == 0
    ensures Node(h, m, k, j) == Zero(h, k)
  {
    NodeDepends(h, m, map[], k, j);
    NodeOfNothing(h, k, j);
  }

  // ------------------------------------------------------------------- paths

  /** Combine a running hash with its sibling as the position bit says. */
  function Ordered(running: int, sibling: int, bit: int): (int, int) {
    if bit == 0 then (running, sibling) else (sibling, running)
  }

  /** The root a path leads to, level 0 first. */
  function Fold(h: Hasher, leaf: int, elements: seq<int>, bits: seq<int>): int
    requires |elements| == |bits|
  {
    if |bits| == 0 then leaf else
      var n := |bits| - 1;
      var pair := Ordered(Fold(h, leaf, elements[..n], bits[..n]), elements[n], bits[n]);
      h.pair(pair.0, pair.1)
  }

  lemma FoldStep(h: Hasher, leaf: int, elements: seq<int>, bits: seq<int>, e: int, b: int)
    requires |elements| == |bits|
    ensures var pair := Ordered(Fold(h, leaf, elements, bits), e, b);
            Fold(h, leaf, elements + [e], bits + [b]) == h.pair(pair.0, pair.1)
  {
    assert (elements + [e])[..|bits|] == elements;
    assert (bits + [b])[..|bits|] == bits;
  }

  predicate AllBits(bits: seq<int>) {
    forall k :: 0 <= k < |bits| ==> bits[k] == 0 || bits[k] == 1
  }

  /** The siblings of leaf i's ancestors, level 0 first. */
  function Siblings(h: Hasher, m: map<int, int>, i: int, depth: nat): (s: seq<int>)
    ensures |s| == depth
  {
    if depth == 0 then []
    else Siblings(h, m, i, depth - 1) + [Node(h, m, depth - 1, Sib(Shr(i, depth - 1)))]
  }

  /** The low bits of i, least significant first. */
  function Bits(i: int, depth: nat): (s: seq<int>)
    ensures |s| == depth && AllBits(s)
  {
    if depth == 0 then [] else Bits(i, depth - 1) + [Shr(i, depth - 1) % 2]
  }

  lemma {:induction false} PathAt(h: Hasher, m: map<int, int>, i: int, depth: nat, k: nat)
    requires k < depth
    ensures Siblings(h, m, i, depth)[k] == Node(h, m, k, Sib(Shr(i, k)))
    ensures Bits(i, depth)[k] == Shr(i, k) % 2
    decreases depth
  {
    if k < depth - 1 {
      PathAt(h, m, i, depth - 1, k);
    }
  }

  function LittleEndian(bits: seq<int>): int {
    if |bits| == 0 then 0
    else LittleEndian(bits[..|bits| - 1]) + bits[|bits| - 1] * Pow2(|bits| - 1)
  }

  /** The leaf reached from height |bits|, position j, by following bits downwards. */
  function Descend(j: int, bits: seq<int>): int
    decreases |bits|
  {
    if |bits| == 0 then j
    else Descend(Child(j, bits[|bits| - 1]), bits[..|bits| - 1])
  }

  lemma ChildProduct(j: int, bit: int, q: int)
    requires bit == 0 || bit == 1
    ensures Child(j, bit) * q == j * (2 * q) + bit * q
  {
    if bit == 0 {
      assert (2 * j) * q == j * (2 * q);
    } else {
      assert (2 * j + 1) * q == (2 * j) * q + q;
      assert (2 * j) * q == j * (2 * q);
    }
  }

  lemma {:induction false} DescendIsLittleEndian(j: int, bits: seq<int>)
    requires AllBits(bits)
    ensures Descend(j, bits) == j * Pow2(|bits|) + LittleEndian(bits)
    decreases |bits|
  {
    if |bits| == 0 {
    } else {
      var n := |bits| - 1;
      var b := bits[n];
      DescendIsLittleEndian(Child(j, b), bits[..n]);
      ChildProduct(j, b, Pow2(n));
    }
  }

  /** Descending along bits and reading the bits of the leaf reached gives them back. */
  lemma {:induction false} DescendBits(j: int, bits: seq<int>)
    requires AllBits(bits)
    ensures Shr(Descend(j, bits), |bits|) == j
    ensures Bits(Descend(j, bits), |bits|) == bits
    decreases |bits|
  {
    if |bits| == 0 {
    } else {
      var n := |bits| - 1;
      DescendBits(Child(j, bits[n]), bits[..n]);
      ChildrenAreSiblings(j, bits[n]);
      assert bits == bits[..n] + [bits[n]];
    }
  }

  /** A path of bits names a leaf below the root, and that leaf's bits are the path. */
  lemma PathNamesLeaf(bits: seq<int>)
    requires AllBits(bits)
    ensures 0 <= LittleEndian(bits) < Pow2(|bits|)
    ensures Bits(LittleEndian(bits), |bits|) == bits
    ensures Descend(0, bits) == LittleEndian(bits)
  {
    assert Descend(0, bits) == LittleEndian(bits) by {
      DescendIsLittleEndian(0, bits);
    }
    DescendBits(0, bits);
    assert 0 <= LittleEndian(bits) < Pow2(|bits|) by {
      ShrRoot(LittleEndian(bits), |bits|);
    }
  }

  lemma {:induction false} BitsDescend(i: int, depth: nat)
    ensures Descend(Shr(i, depth), Bits(i, depth)) == i
  {
    if depth == 0 {
    } else {
      assert Bits(i, depth)[..depth - 1] == Bits(i, depth - 1);
      BitsDescend(i, depth - 1);
    }
  }

  /** The bits of a position below 2^depth are its binary digits. */
  lemma BitsAreDigits(i: int, depth: nat)
    requires 0 <= i < Pow2(depth)
    ensures LittleEndian(Bits(i, depth)) == i
  {
    ShrRoot(i, depth);
    BitsDescend(i, depth);
    DescendIsLittleEndian(0, Bits(i, depth));
  }

  /** A node's parent hashes it together with its sibling, in position order. */
  lemma NodeStep(h: Hasher, m: map<int, int>, k: nat, j: int)
    ensures var pair := Ordered(Node(h, m, k, j), Node(h, m, k, Sib(j)), j % 2);
            Node(h, m, k + 1, j / 2) == h.pair(pair.0, pair.1)
  {
  }

  // ----------------------------------------------- completeness and locality

  /** Nothing below a node off leaf i's branch notices a write at i. */
  lemma OffBranch(h: Hasher, m: map<int, int>, i: int, v: int, k: nat, j: int)
    requires Shr(i, k) != j
    ensures Node(h, m[i := v], k, j) == Node(h, m, k, j)
  {
    NodeDepends(h, m[i := v], m, k, j);
  }

  /**
   * Writing v at i moves the root of the subtree containing i to the fold of v
   * along the siblings that authenticated the old value.
   */
  lemma {:induction false} UpdateFold(h: Hasher, m: map<int, int>, i: int, v: int, depth: nat)
    ensures Fold(h, v, Siblings(h, m, i, depth), Bits(i, depth)) == Node(h, m[i := v], depth, Shr(i, depth))
  {
    if depth == 0 {
    } else {
      var k := depth - 1;
      UpdateFold(h, m, i, v, k);
      FoldStep(h, v, Siblings(h, m, i, k), Bits(i, k), Node(h, m, k, Sib(Shr(i, k))), Shr(i, k) % 2);
      OffBranch(h, m, i, v, k, Sib(Shr(i, k)));
      NodeStep(h, m[i := v], k, Shr(i, k));
    }
  }

  /** A leaf folded along its own path gives the node above it at that height. */
  lemma PathComplete(h: Hasher, m: map<int, int>, i: int, depth: nat)
    ensures Fold(h, At(m, i), Siblings(h, m, i, depth), Bits(i, depth)) == Node(h, m, depth, Shr(i, depth))
  {
    UpdateFold(h, m, i, At(m, i), depth);
    NodeDepends(h, m[i := At(m, i)], m, depth, Shr(i, depth));
  }

  /** Writing a leaf in range moves the root to the new leaf folded along the old leaf's path. */
  lemma UpdateRoot(h: Hasher, m: map<int, int>, i: int, v: int, depth: nat)
    requires 0 <= i < Pow2(depth)
    ensures Node(h, m[i := v], depth, 0) == Fold(h, v, Siblings(h, m, i, depth), Bits(i, depth))
    ensures Node(h, m, depth, 0) == Fold(h, At(m, i), Siblings(h, m, i, depth), Bits(i, depth))
  {
    ShrRoot(i, depth);
    UpdateFold(h, m, i, v, depth);
    PathComplete(h, m, i, depth);
  }

  /** The one level at which the paths of a and b meet. */
  function Diverge(a: int, b: int, depth: nat): (k: nat)
    requires a != b && Shr(a, depth) == Shr(b, depth)
    ensures k < depth
    ensures Shr(a, k) == Sib(Shr(b, k))
    ensures Shr(a, k + 1) == Shr(b, k + 1)
  {
    if Shr(a, depth - 1) == Shr(b, depth - 1) then Diverge(a, b, depth - 1) else depth - 1
  }

  lemma SiblingsMeet(x: int)
    ensures Sib(x) != x && Sib(x) / 2 == x / 2
  {
  }

  /** Away from that level, neither position is the other's sibling. */
  lemma MeetOnce(a: int, b: int, k: nat, l: nat)
    requires Shr(a, k) == Sib(Shr(b, k)) && Shr(a, k + 1) == Shr(b, k + 1)
    requires l != k
    ensures Shr(a, l) != Sib(Shr(b, l))
  {
    if l > k {
      ShrAgree(a, b, k + 1, l);
      SiblingsMeet(Shr(b, l));
    } else if Shr(a, l) == Sib(Shr(b, l)) {
      SiblingsMeet(Shr(b, l));
      assert Shr(a, l + 1) == Shr(b, l + 1);
      ShrAgree(a, b, l + 1, k);
      SiblingsMeet(Shr(b, k));
      assert false;
    }
  }

  /**
   * A write at i leaves every other leaf's path alone except at the level where
   * the two positions diverge, where the sibling becomes the rebuilt subtree of i.
   */
  lemma UpdateLocality(h: Hasher, m: map<int, int>, i: int, v: int, other: int, depth: nat)
    requires i != other && 0 <= i < Pow2(depth) && 0 <= other < Pow2(depth)
    ensures Shr(i, depth) == 0 == Shr(other, depth)
    ensures var k := Diverge(i, other, depth);
            var before, after := Siblings(h, m, other, depth), Siblings(h, m[i := v], other, depth);
            && (forall l :: 0 <= l < depth && l != k ==> after[l] == before[l])
            && after[k] == Fold(h, v, Siblings(h, m, i, k), Bits(i, k))
  {
    ShrRoot(i, depth);
    ShrRoot(other, depth);
    var k := Diverge(i, other, depth);
    UpdateFold(h, m, i, v, k);
    PathAt(h, m[i := v], other, depth, k);
    SiblingsMeet(Shr(other, k));
    SiblingsMeet(Shr(i, k));
    forall l | 0 <= l < depth && l != k
      ensures Siblings(h, m[i := v], other, depth)[l] == Siblings(h, m, other, depth)[l]
    {
      PathAt(h, m, other, depth, l);
      PathAt(h, m[i := v], other, depth, l);
      MeetOnce(i, other, k, l);
      OffBranch(h, m, i, v, l, Sib(Shr(other, l)));
    }
  }

  // --------------------------------------------------------------- soundness

  /**
   * Compare a claimed path with the true tree from the top down and stop at the
   * first pair that differs from the true one.
   */
  function OpeningClash(h: Hasher, m: map<int, int>, j: int, leaf: int, elements: seq<int>, bits: seq<int>)
      : Option<Clash>
    requires |elements| == |bits|
    decreases |bits|
  {
    if |bits| == 0 then None else
      var n := |bits| - 1;
      var claimed := Ordered(Fold(h, leaf, elements[..n], bits[..n]), elements[n], bits[n]);
      var truth := (Node(h, m, n, 2 * j), Node(h, m, n, 2 * j + 1));
      if claimed != truth then Some(Clash(claimed, truth))
      else OpeningClash(h, m, Child(j, bits[n]), leaf, elements[..n], bits[..n])
  }

  lemma OpenedStep(h: Hasher, m: map<int, int>, i: int, n: nat, child: int, elements: seq<int>)
    requires |elements| == n + 1 && Shr(i, n) == child
    requires elements[n] == Node(h, m, n, Sib(child))
    requires elements[..n] == Siblings(h, m, i, n)
    ensures elements == Siblings(h, m, i, n + 1)
  {
    assert elements == elements[..n] + [elements[n]];
  }

  lemma BrokenLink(h: Hasher, m: map<int, int>, n: nat, j: int, claimed: (int, int))
    requires h.pair(claimed.0, claimed.1) == Node(h, m, n + 1, j)
    requires claimed != (Node(h, m, n, 2 * j), Node(h, m, n, 2 * j + 1))
    ensures IsClash(h, Clash(claimed, (Node(h, m, n, 2 * j), Node(h, m, n, 2 * j + 1))))
  {
  }

  /** A true pair of children, read as running hash and sibling. */
  lemma ReadPair(h: Hasher, m: map<int, int>, n: nat, j: int, running: int, sibling: int, bit: int)
    requires Ordered(running, sibling, bit) == (Node(h, m, n, 2 * j), Node(h, m, n, 2 * j + 1))
    ensures running == Node(h, m, n, Child(j, bit)) && sibling == Node(h, m, n, OtherChild(j, bit))
  {
  }

  /** Every sibling on the way down from height |bits|, position j, is the true one. */
  predicate TrueSiblings(h: Hasher, m: map<int, int>, j: int, elements: seq<int>, bits: seq<int>)
    requires |elements| == |bits|
    decreases |bits|
  {
    |bits| > 0 ==>
      var n := |bits| - 1;
      && elements[n] == Node(h, m, n, OtherChild(j, bits[n]))
      && TrueSiblings(h, m, Child(j, bits[n]), elements[..n], bits[..n])
  }

  lemma {:induction false} TrueSiblingsAreSiblings(h: Hasher, m: map<int, int>, j: int, elements: seq<int>,
                                                   bits: seq<int>)
    requires |elements| == |bits| && AllBits(bits) && TrueSiblings(h, m, j, elements, bits)
    ensures elements == Siblings(h, m, Descend(j, bits), |bits|)
    decreases |bits|
  {
    if |bits| == 0 {
    } else {
      var n := |bits| - 1;
      var child := Child(j, bits[n]);
      TrueSiblingsAreSiblings(h, m, child, elements[..n], bits[..n]);
      DescendBits(child, bits[..n]);
      ChildrenAreSiblings(j, bits[n]);
      OpenedStep(h, m, Descend(child, bits[..n]), n, child, elements);
    }
  }

  /** If every link of the path is a true pair, its leaf and siblings are the named leaf's own. */
  lemma {:induction false} UnbrokenPath(h: Hasher, m: map<int, int>, j: int, leaf: int,
                                        elements: seq<int>, bits: seq<int>)
    requires |elements| == |bits| && AllBits(bits)
    requires Fold(h, leaf, elements, bits) == Node(h, m, |bits|, j)
    requires OpeningClash(h, m, j, leaf, elements, bits).None?
    ensures leaf == At(m, Descend(j, bits))
    ensures TrueSiblings(h, m, j, elements, bits)
    decreases |bits|
  {
    if |bits| == 0 {
    } else {
      var n := |bits| - 1;
      ReadPair(h, m, n, j, Fold(h, leaf, elements[..n], bits[..n]), elements[n], bits[n]);
      UnbrokenPath(h, m, Child(j, bits[n]), leaf, elements[..n], bits[..n]);
    }
  }

  /** A broken link of a path that reaches the right node is a pair of colliding inputs. */
  lemma {:induction false} BrokenPath(h: Hasher, m: map<int, int>, j: int, leaf: int,
                                      elements: seq<int>, bits: seq<int>)
    requires |elements| == |bits| && AllBits(bits)
    requires Fold(h, leaf, elements, bits) == Node(h, m, |bits|, j)
    requires OpeningClash(h, m, j, leaf, elements, bits).Some?
    ensures IsClash(h, OpeningClash(h, m, j, leaf, elements, bits).value)
    decreases |bits|
  {
    var n := |bits| - 1;
    var running := Fold(h, leaf, elements[..n], bits[..n]);
    var claimed := Ordered(running, elements[n], bits[n]);
    var truth := (Node(h, m, n, 2 * j), Node(h, m, n, 2 * j + 1));
    var child := Child(j, bits[n]);
    if claimed != truth {
      BrokenLink(h, m, n, j, claimed);
      assert OpeningClash(h, m, j, leaf, elements, bits) == Some(Clash(claimed, truth));
    } else {
      ReadPair(h, m, n, j, running, elements[n], bits[n]);
      assert OpeningClash(h, m, j, leaf, elements, bits) == OpeningClash(h, m, child, leaf, elements[..n], bits[..n]);
      BrokenPath(h, m, child, leaf, elements[..n], bits[..n]);
    }
  }

  /**
   * A path of bits that folds to the root either opens the leaf it names in
   * little-endian binary, with exactly that leaf's siblings, or OpeningClash
   * returns two different pairs with one digest.
   */
  lemma OpeningSound(h: Hasher, m: map<int, int>, leaf: int, elements: seq<int>, bits: seq<int>)
    requires |elements| == |bits| && AllBits(bits)
    requires Fold(h, leaf, elements, bits) == Node(h, m, |bits|, 0)
    ensures match OpeningClash(h, m, 0, leaf, elements, bits)
            case Some(c) => IsClash(h, c)
            case None =>
              && leaf == At(m, LittleEndian(bits))
              && elements == Siblings(h, m, LittleEndian(bits), |bits|)
  {
    PathNamesLeaf(bits);
    if OpeningClash(h, m, 0, leaf, elements, bits).None? {
      UnbrokenPath(h, m, 0, leaf, elements, bits);
      TrueSiblingsAreSiblings(h, m, 0, elements, bits);
    } else {
      BrokenPath(h, m, 0, leaf, elements, bits);
    }
  }

  /**
   * Walk down from two nodes at height k, possibly in different trees or at
   * different positions, and report the first pairs of children that differ.
   */
  function BindingClash(h: Hasher, a: map<int, int>, ja: int, b: map<int, int>, jb: int, k: nat): Option<Clash>
    decreases k
  {
    if k == 0 then None else
      var left := (Node(h, a, k - 1, 2 * ja), Node(h, a, k - 1, 2 * ja + 1));
      var right := (Node(h, b, k - 1, 2 * jb), Node(h, b, k - 1, 2 * jb + 1));
      if left != right then Some(Clash(left, right)) else
        var low := BindingClash(h, a, 2 * ja, b, 2 * jb, k - 1);
        if low.Some? then low else BindingClash(h, a, 2 * ja + 1, b, 2 * jb + 1, k - 1)
  }

  /** The padded leaves below the two nodes are the same, in the same order. */
  predicate SameBelow(a: map<int, int>, ja: int, b: map<int, int>, jb: int, k: nat)
    decreases k
  {
    if k == 0 then At(a, ja) == At(b, jb)
    else SameBelow(a, 2 * ja, b, 2 * jb, k - 1) && SameBelow(a, 2 * ja + 1, b, 2 * jb + 1, k - 1)
  }

  lemma {:induction false} SameBelowAt(a: map<int, int>, ja: int, b: map<int, int>, jb: int, bits: seq<int>)
    requires SameBelow(a, ja, b, jb, |bits|) && AllBits(bits)
    ensures At(a, Descend(ja, bits)) == At(b, Descend(jb, bits))
    decreases |bits|
  {
    if |bits| == 0 {
    } else {
      var n := |bits| - 1;
      SameBelowAt(a, Child(ja, bits[n]), b, Child(jb, bits[n]), bits[..n]);
    }
  }

  lemma {:induction false} SameBelowSameNode(h: Hasher, a: map<int, int>, ja: int, b: map<int, int>, jb: int, k: nat)
    requires SameBelow(a, ja, b, jb, k)
    ensures Node(h, a, k, ja) == Node(h, b, k, jb)
    decreases k
  {
    if k == 0 {
    } else {
      SameBelowSameNode(h, a, 2 * ja, b, 2 * jb, k - 1);
      SameBelowSameNode(h, a, 2 * ja + 1, b, 2 * jb + 1, k - 1);
    }
  }

  /**
   * Two nodes of one height with one hash have the same padded leaves below them,
   * or BindingClash returns two different pairs with one digest.
   */
  lemma {:induction false} NodeBinding(h: Hasher, a: map<int, int>, ja: int, b: map<int, int>, jb: int, k: nat)
    requires Node(h, a, k, ja) == Node(h, b, k, jb)
    ensures match BindingClash(h, a, ja, b, jb, k)
            case Some(c) => IsClash(h, c)
            case None => SameBelow(a, ja, b, jb, k)
    decreases k
  {
    if k == 0 {
    } else {
      var left := (Node(h, a, k - 1, 2 * ja), Node(h, a, k - 1, 2 * ja + 1));
      var right := (Node(h, b, k - 1, 2 * jb), Node(h, b, k - 1, 2 * jb + 1));
      if left == right {
        NodeBinding(h, a, 2 * ja, b, 2 * jb, k - 1);
        NodeBinding(h, a, 2 * ja + 1, b, 2 * jb + 1, k - 1);
      }
    }
  }

  /** The leaf lists of two trees, padded with zeros without end, are the same. */
  ghost predicate SamePadding(a: seq<int>, b: seq<int>) {
    forall i :: At(SeqMap(a), i) == At(SeqMap(b), i)
  }

  /**
   * Two lists that fit a tree of the given depth and share its root are the same
   * up to zero padding, or BindingClash returns two different pairs with one digest.
   */
  lemma RootBinding(h: Hasher, a: seq<int>, b: seq<int>, depth: nat)
    requires |a| <= Pow2(depth) && |b| <= Pow2(depth)
    requires Node(h, SeqMap(a), depth, 0) == Node(h, SeqMap(b), depth, 0)
    ensures match BindingClash(h, SeqMap(a), 0, SeqMap(b), 0, depth)
            case Some(c) => IsClash(h, c)
            case None => SamePadding(a, b)
  {
    NodeBinding(h, SeqMap(a), 0, SeqMap(b), 0, depth);
    if BindingClash(h, SeqMap(a), 0, SeqMap(b), 0, depth).None? {
      forall i
        ensures At(SeqMap(a), i) == At(SeqMap(b), i)
      {
        if 0 <= i < Pow2(depth) {
          ShrRoot(i, depth);
          BitsDescend(i, depth);
          SameBelowAt(SeqMap(a), 0, SeqMap(b), 0, Bits(i, depth));
        }
      }
    }
  }

  /** Lists without a zero leaf that agree up to padding are equal. */
  lemma PaddingDecides(a: seq<int>, b: seq<int>)
    requires 0 !in a && 0 !in b
    requires SamePadding(a, b)
    ensures a == b
  {
    assert forall i :: 0 <= i < |a| ==> At(SeqMap(a), i) == a[i];
    assert forall i :: 0 <= i < |b| ==> At(SeqMap(b), i) == b[i];
    assert At(SeqMap(a), |a|) == At(SeqMap(b), |a|);
    assert At(SeqMap(b), |b|) == At(SeqMap(a), |b|);
    assert |a| == |b|;
    assert forall i :: 0 <= i < |a| ==> At(SeqMap(a), i) == At(SeqMap(b), i);
  }

  /** A trailing zero leaf leaves every node as it was: roots do not fix the list's length. */
  lemma TrailingZeroInvisible(h: Hasher, s: seq<int>, k: nat, j: int)
    ensures Node(h, SeqMap(s + [0]), k, j) == Node(h, SeqMap(s), k, j)
  {
    NodeDepends(h, SeqMap(s + [0]), SeqMap(s), k, j);
  }
}
