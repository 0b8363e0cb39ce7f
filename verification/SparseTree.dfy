/**
 * The sparse tree of the JavaScript circuit tests: a map of leaves walked from
 * the root downwards, with empty subtrees cut short. Shifts and exclusive-or
 * work on 32-bit signed integers, as JavaScript's do.
 */
module SparseTree {
  import opened Prelude
  import opened Hashing
  import opened Merkle
  import DenseTree

  /** The 32-bit signed integer that a bitwise operator makes of its operand. */
  function ToInt32(x: int): int {
    (x + 0x8000_0000) % 0x1_0000_0000 - 0x8000_0000
  }

  /** 1 << level: the low five bits of the level count, and bit 31 is the sign. */
  function ShiftOne(level: nat): int {
    if level % 32 == 31 then -0x8000_0000 else Pow2(level % 32)
  }

  /** idx ^ 1. */
  function FlipLow(idx: int): int {
    var x := ToInt32(idx);
    if x % 2 == 0 then x + 1 else x - 1
  }

  /** idx & 1. */
  function LowBit(idx: int): int {
    ToInt32(idx) % 2
  }

  /** idx >> 1. */
  function Halve(idx: int): int {
    ToInt32(idx) / 2
  }

  ghost predicate AnyLeafIn(leaves: map<int, int>, lo: int, hi: int) {
    exists i :: i in leaves && lo <= i < hi
  }

  /** The top-down walk. */
  ghost function SparseNode(h: Hasher, leaves: map<int, int>, maxIndex: int, zeros: seq<int>, level: nat,
                            index: int): int
    requires level < |zeros|
    decreases level
  {
    if level == 0 then
      if index in leaves then leaves[index] else zeros[0]
    else
      var start := index * ShiftOne(level);
      if maxIndex < start || !AnyLeafIn(leaves, start, start + ShiftOne(level)) then zeros[level]
      else h.pair(SparseNode(h, leaves, maxIndex, zeros, level - 1, 2 * index),
                  SparseNode(h, leaves, maxIndex, zeros, level - 1, 2 * index + 1))
  }

  ghost predicate IsLadder(h: Hasher, zeros: seq<int>) {
    forall k: nat :: k < |zeros| ==> zeros[k] == Zero(h, k)
  }

  lemma ShiftOneIsPow2(level: nat)
    requires level <= 30
    ensures ShiftOne(level) == Pow2(level)
  {
    assert level % 32 == level;
  }

  /** On the low 32 bits the bitwise operators are sibling, low bit and parent. */
  lemma BitwiseSteps(idx: int)
    ensures FlipLow(idx) == Sib(ToInt32(idx)) && LowBit(idx) == ToInt32(idx) % 2
    ensures ToInt32(Halve(idx)) == Halve(idx) == ToInt32(idx) / 2
  {
  }

  /** A position of 32 signed bits is read as itself. */
  lemma InRangeIsItself(idx: int)
    ensures ToInt32(idx) == idx <==> -0x8000_0000 <= idx < 0x8000_0000
  {
  }

  /** The siblings the walk shows: true up to level 30, the zero ladder above. */
  function SeenSiblings(h: Hasher, m: map<int, int>, i: int, depth: nat): (s: seq<int>)
    ensures |s| == depth
  {
    if depth == 0 then [] else
      var k := depth - 1;
      SeenSiblings(h, m, i, k) + [if k <= 30 then Node(h, m, k, Sib(Shr(i, k))) else Zero(h, k)]
  }

  /** Up to depth 31 these are the true siblings. */
  lemma {:induction false} SeenIsTrue(h: Hasher, m: map<int, int>, i: int, depth: nat)
    requires depth <= 31
    ensures SeenSiblings(h, m, i, depth) == Siblings(h, m, i, depth)
  {
    if depth == 0 {
    } else {
      SeenIsTrue(h, m, i, depth - 1);
    }
  }

  lemma HalveEven(x: int, y: int)
    ensures (x + 2 * y) / 2 == x / 2 + y
    ensures (x + 2 * y) % 2 == x % 2
  {
  }

  lemma {:induction false} ShrOfShifted(i: int, t: int, m: nat, k: nat)
    requires k <= m
    ensures Shr(i + t * Pow2(m), k) == Shr(i, k) + t * Pow2(m - k)
    decreases k
  {
    if k == 0 {
    } else {
      ShrOfShifted(i, t, m, k - 1);
      DoubleProduct(t, Pow2(m - k));
      HalveEven(Shr(i, k - 1), t * Pow2(m - k));
    }
  }

  lemma {:induction false} BitsOfShifted(i: int, t: int, m: nat, depth: nat)
    requires depth <= m
    ensures Bits(i + t * Pow2(m), depth) == Bits(i, depth)
  {
    if depth == 0 {
    } else {
      var k := depth - 1;
      BitsOfShifted(i, t, m, k);
      ShrOfShifted(i, t, m, k);
      DoubleProduct(t, Pow2(m - depth));
      HalveEven(Shr(i, k), t * Pow2(m - depth));
    }
  }

  lemma FourDoublings(n: nat)
    ensures Pow2(n + 4) == 16 * Pow2(n)
  {
    assert Pow2(n + 3) == 2 * Pow2(n + 2);
    assert Pow2(n + 2) == 2 * Pow2(n + 1);
  }

  lemma Pow2Of32()
    ensures Pow2(32) == 0x1_0000_0000
  {
    FourDoublings(0);
    FourDoublings(4);
    FourDoublings(8);
    FourDoublings(12);
    FourDoublings(16);
    FourDoublings(20);
    FourDoublings(24);
    FourDoublings(28);
  }

  /** Up to depth 32 the position bits are right whatever the position. */
  lemma LowBitsSuffice(i: int, depth: nat)
    requires depth <= 32
    ensures Bits(ToInt32(i), depth) == Bits(i, depth)
  {
    var t := (i + 0x8000_0000) / 0x1_0000_0000;
    Pow2Of32();
    assert ToInt32(i) == i - t * 0x1_0000_0000;
    BitsOfShifted(i, -t, 32, depth);
  }

  lemma NoLeafBelow(h: Hasher, leaves: map<int, int>, level: nat, index: int, start: int)
    requires start == index * Pow2(level)
    requires forall i :: i in leaves ==> !(start <= i < start + Pow2(level))
    ensures Node(h, leaves, level, index) == Zero(h, level)
  {
    forall i | Shr(i, level) == index
      ensures At(leaves, i) == 0
    {
      ShrRange(i, level, index);
    }
    EmptySubtree(h, leaves, level, index);
  }

  /** Up to level 30 the walk computes the node of the full padded tree. */
  lemma {:induction false} SparseNodeIsNode(h: Hasher, leaves: map<int, int>, maxIndex: int, zeros: seq<int>,
                                            level: nat, index: int)
    requires level < |zeros| && level <= 30
    requires IsLadder(h, zeros)
    requires forall i :: i in leaves ==> i <= maxIndex
    ensures SparseNode(h, leaves, maxIndex, zeros, level, index) == Node(h, leaves, level, index)
    decreases level
  {
    if level == 0 {
    } else {
      var start := index * ShiftOne(level);
      ShiftOneIsPow2(level);
      if maxIndex < start || !AnyLeafIn(leaves, start, start + ShiftOne(level)) {
        NoLeafBelow(h, leaves, level, index, start);
      } else {
        SparseNodeIsNode(h, leaves, maxIndex, zeros, level - 1, 2 * index);
        SparseNodeIsNode(h, leaves, maxIndex, zeros, level - 1, 2 * index + 1);
      }
    }
  }

  /** From level 31 on the 32-bit shift loses every leaf: the walk always answers the zero ladder. */
  lemma {:induction false} SparseNodeIsBlind(h: Hasher, leaves: map<int, int>, maxIndex: int, zeros: seq<int>,
                                             level: nat, index: int)
    requires 31 <= level < |zeros|
    requires IsLadder(h, zeros)
    ensures SparseNode(h, leaves, maxIndex, zeros, level, index) == Zero(h, level)
    decreases level
  {
    if level == 31 {
      assert ShiftOne(level) < 0;
    } else {
      SparseNodeIsBlind(h, leaves, maxIndex, zeros, level - 1, 2 * index);
      SparseNodeIsBlind(h, leaves, maxIndex, zeros, level - 1, 2 * index + 1);
    }
  }

  /** At every level: the full tree's node up to 30, the zero ladder above. */
  lemma SparseNodeValue(h: Hasher, leaves: map<int, int>, maxIndex: int, zeros: seq<int>, level: nat, index: int)
    requires level < |zeros| && IsLadder(h, zeros)
    requires forall i :: i in leaves ==> i <= maxIndex
    ensures SparseNode(h, leaves, maxIndex, zeros, level, index)
            == if level <= 30 then Node(h, leaves, level, index) else Zero(h, level)
  {
    if level <= 30 {
      SparseNodeIsNode(h, leaves, maxIndex, zeros, level, index);
    } else {
      SparseNodeIsBlind(h, leaves, maxIndex, zeros, level, index);
    }
  }

  class MerkleTree {
    const h: Hasher
    const depth: nat
    var leaves: map<int, int>
    var maxIndex: int
    const zeros: seq<int>

    ghost predicate Valid()
      reads this
    {
      && |zeros| == depth + 1
      && IsLadder(h, zeros)
      && (forall i :: i in leaves ==> i <= maxIndex)
      && (maxIndex == -1 || (maxIndex in leaves && maxIndex >= 0))
    }

    constructor (h: Hasher, depth: nat)
      ensures Valid() && this.h == h && this.depth == depth && leaves == map[] && maxIndex == -1
    {
      this.h := h;
      this.depth := depth;
      leaves := map[];
      maxIndex := -1;
      var ladder := [0];
      for k := 1 to depth + 1
        invariant |ladder| == k
        invariant IsLadder(h, ladder)
      {
        ladder := ladder + [h.pair(ladder[k - 1], ladder[k - 1])];
      }
      zeros := ladder;
    }

    method Insert(index: int, leaf: int)
      requires Valid()
      modifies this
      ensures Valid() && leaves == old(leaves)[index := leaf]
      ensures maxIndex == if index > old(maxIndex) then index else old(maxIndex)
    {
      leaves := leaves[index := leaf];
      if index > maxIndex {
        maxIndex := index;
      }
    }

    method HasLeafIn(lo: int, hi: int) returns (found: bool)
      ensures found <==> AnyLeafIn(leaves, lo, hi)
    {
      var rest := leaves.Keys;
      while rest != {}
        invariant rest <= leaves.Keys
        invariant forall i :: i in leaves && i !in rest ==> !(lo <= i < hi)
        decreases rest
      {
        Inhabited(rest);
        var idx :| idx in rest;
        if idx >= lo && idx < hi {
          return true;
        }
        rest := rest - {idx};
      }
      return false;
    }

    /** The walk, whose value SparseNodeValue gives. */
    method NodeAt(level: nat, index: int) returns (digest: int)
      requires Valid() && level <= depth
      ensures digest == SparseNode(h, leaves, maxIndex, zeros, level, index)
      decreases level
    {
      if level == 0 {
        return if index in leaves then leaves[index] else zeros[0];
      }
      var span := ShiftOne(level);
      var start := index * span;
      if maxIndex < start {
        return zeros[level];
      }
      var found := HasLeafIn(start, start + span);
      if !found {
        return zeros[level];
      }
      var left := NodeAt(level - 1, 2 * index);
      var right := NodeAt(level - 1, 2 * index + 1);
      return h.pair(left, right);
    }

    method Root() returns (root: int)
      requires Valid()
      ensures root == if depth <= 30 then Node(h, leaves, depth, 0) else Zero(h, depth)
    {
      root := NodeAt(depth, 0);
      SparseNodeValue(h, leaves, maxIndex, zeros, depth, 0);
    }

    /**
     * The path of the position's low 32 bits, read as a signed integer, with the
     * zero ladder for siblings above level 30.
     */
    method Proof(index: int) returns (path: DenseTree.Path)
      requires Valid()
      ensures path.root == if depth <= 30 then Node(h, leaves, depth, 0) else Zero(h, depth)
      ensures path.bits == Bits(ToInt32(index), depth)
      ensures path.elements == SeenSiblings(h, leaves, ToInt32(index), depth)
    {
      var elements: seq<int> := [];
      var bits: seq<int> := [];
      var idx := index;
      for level := 0 to depth
        invariant ToInt32(idx) == Shr(ToInt32(index), level)
        invariant elements == SeenSiblings(h, leaves, ToInt32(index), level)
        invariant bits == Bits(ToInt32(index), level)
      {
        BitwiseSteps(idx);
        var sib := FlipLow(idx);
        var digest := NodeAt(level, sib);
        SparseNodeValue(h, leaves, maxIndex, zeros, level, sib);
        elements := elements + [digest];
        bits := bits + [LowBit(idx)];
        idx := Halve(idx);
      }
      var root := Root();
      return DenseTree.Path(elements, bits, root);
    }
  }

  lemma {:induction false} ZeroOfSum(sum: Hasher, k: nat)
    requires forall a, b :: sum.pair(a, b) == a + b
    ensures Zero(sum, k) == 0
  {
    if k == 0 {
    } else {
      ZeroOfSum(sum, k - 1);
    }
  }

  lemma {:induction false} NodeOfSum(sum: Hasher, k: nat)
    requires forall a, b :: sum.pair(a, b) == a + b
    ensures Node(sum, map[0 := 1], k, 0) == 1
  {
    if k == 0 {
    } else {
      NodeOfSum(sum, k - 1);
      ZeroOfSum(sum, k - 1);
      forall i | Shr(i, k - 1) == 1
        ensures At(map[0 := 1], i) == 0
      {
        ShrRange(i, k - 1, 1);
      }
      EmptySubtree(sum, map[0 := 1], k - 1, 1);
    }
  }

  /** A root the walk gets wrong: adding children up, one leaf 1 in a tree of depth 31 or more. */
  lemma BlindRootExample(sum: Hasher, zeros: seq<int>, depth: nat)
    requires forall a, b :: sum.pair(a, b) == a + b
    requires 31 <= depth < |zeros| && IsLadder(sum, zeros)
    ensures SparseNode(sum, map[0 := 1], 0, zeros, depth, 0) == 0
    ensures Node(sum, map[0 := 1], depth, 0) == 1
  {
    ZeroOfSum(sum, depth);
    NodeOfSum(sum, depth);
    SparseNodeIsBlind(sum, map[0 := 1], 0, zeros, depth, 0);
  }

  lemma EmptyRootBinding(h: Hasher, leaves: map<int, int>, depth: nat)
    requires Node(h, leaves, depth, 0) == Zero(h, depth)
    ensures match BindingClash(h, leaves, 0, map[], 0, depth)
            case Some(c) => IsClash(h, c)
            case None => forall i :: 0 <= i < Pow2(depth) ==> At(leaves, i) == 0
  {
    NodeOfNothing(h, depth, 0);
    NodeBinding(h, leaves, 0, map[], 0, depth);
    if BindingClash(h, leaves, 0, map[], 0, depth).None? {
      forall i | 0 <= i < Pow2(depth)
        ensures At(leaves, i) == 0
      {
        ShrRoot(i, depth);
        BitsDescend(i, depth);
        SameBelowAt(leaves, 0, map[], 0, Bits(i, depth));
      }
    }
  }

  /**
   * When the walk's root is the true root: always up to depth 30; above that, when
   * every leaf in range is zero, and only then unless BindingClash returns two
   * different pairs with one digest.
   */
  lemma BlindRoot(h: Hasher, leaves: map<int, int>, maxIndex: int, zeros: seq<int>, depth: nat)
    requires depth < |zeros| && IsLadder(h, zeros)
    requires forall i :: i in leaves ==> i <= maxIndex
    ensures var right := SparseNode(h, leaves, maxIndex, zeros, depth, 0) == Node(h, leaves, depth, 0);
            var allZero := forall i :: 0 <= i < Pow2(depth) ==> At(leaves, i) == 0;
            && (depth <= 30 || allZero ==> right)
            && (depth > 30 && right ==>
                  match BindingClash(h, leaves, 0, map[], 0, depth)
                  case Some(c) => IsClash(h, c)
                  case None => allZero)
  {
    SparseNodeValue(h, leaves, maxIndex, zeros, depth, 0);
    if forall i :: 0 <= i < Pow2(depth) ==> At(leaves, i) == 0 {
      forall i | Shr(i, depth) == 0
        ensures At(leaves, i) == 0
      {
        ShrRoot(i, depth);
      }
      EmptySubtree(h, leaves, depth, 0);
    }
    if Node(h, leaves, depth, 0) == Zero(h, depth) {
      EmptyRootBinding(h, leaves, depth);
    }
  }

  /** Leaves inserted at 0, 1, 2, ... are the map the dense tree's nodes are stated over. */
  lemma {:induction false} InsertedInOrder(s: seq<int>)
    ensures s == [] ==> SeqMap(s) == map[]
    ensures |s| > 0 ==> SeqMap(s) == SeqMap(s[..|s| - 1])[|s| - 1 := s[|s| - 1]]
  {
  }

  /**
   * Fill both trees with the same leaves and ask both for one leaf's path: same
   * siblings, same bits, same root, whether or not the leaves fit the tree.
   */
  method Mirror(h: Hasher, depth: int, s: seq<int>, index: int) returns (dense: DenseTree.Path, sparse: DenseTree.Path)
    requires 0 < depth <= 30 && 0 <= index < |s| && index < 0x8000_0000
    requires DenseTree.LadderHashes(h, depth) && DenseTree.LayersHash(h, s, depth)
    ensures dense == sparse
    ensures sparse.root == Node(h, SeqMap(s), depth, 0)
  {
    var t := DenseTree.Tree.New(depth, h);
    var go := t.value;
    var js := new MerkleTree(h, depth);
    for i := 0 to |s|
      invariant fresh(go) && go.Valid() && go.leaves == s[..i] && go.depth == depth && go.hasher == h
      invariant fresh(js) && js.Valid() && js.leaves == SeqMap(s[..i]) && js.depth == depth && js.h == h
    {
      var _ := go.Append(s[i]);
      js.Insert(i, s[i]);
      InsertedInOrder(s[..i + 1]);
      assert s[..i + 1][..i] == s[..i];
    }
    assert s[..|s|] == s;
    var path := go.Proof(index);
    dense := path.value;
    sparse := js.Proof(index);
    InRangeIsItself(index);
    SeenIsTrue(h, SeqMap(s), index, depth);
  }
}
