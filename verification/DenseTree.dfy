/**
 * The append-only dense tree of the Go issuer: it is rebuilt layer by layer,
 * with the zero ladder standing in for a missing right sibling.
 */
module DenseTree {
  import opened Prelude
  import opened Hashing
  import opened Merkle

  datatype TreeError = InvalidDepth | IndexOutOfRange | HashFailed

  /** An authentication path together with the root computed along with it. */
  datatype Path = Path(elements: seq<int>, bits: seq<int>, root: int)

  // ---------------------------------------------------------- layer geometry

  /** How many entries layer k has over n leaves. */
  function LayerLen(n: nat, k: nat): nat {
    if k == 0 then n
    else if n == 0 then 1
    else (LayerLen(n, k - 1) + 1) / 2
  }

  lemma {:induction false} LayerEndsAtLastAncestor(n: nat, k: nat)
    ensures n > 0 ==> LayerLen(n, k) == Shr(n - 1, k) + 1 > 0
  {
    if k > 0 && n > 0 {
      LayerEndsAtLastAncestor(n, k - 1);
    }
    if n > 0 {
      ShrNonNegative(n - 1, k);
    }
  }

  /** Above the leaves, layer k has ceil(n / 2^k) entries, and one when there are no leaves. */
  lemma LayerLenIsCeiling(n: nat, k: nat)
    ensures n > 0 ==> (LayerLen(n, k) - 1) * Pow2(k) < n <= (LayerLen(n, k) - 1) * Pow2(k) + Pow2(k)
    ensures n == 0 && k > 0 ==> LayerLen(n, k) == 1
  {
    if n > 0 {
      LayerEndsAtLastAncestor(n, k);
      ShrRange(n - 1, k, LayerLen(n, k) - 1);
    }
  }

  /** The top layer has one entry exactly when the leaves fit the tree. */
  lemma TopLayerIsSingle(n: nat, depth: nat)
    requires depth > 0
    ensures LayerLen(n, depth) == 1 <==> n <= Pow2(depth)
  {
    if n > 0 {
      LayerEndsAtLastAncestor(n, depth);
      ShrRoot(n - 1, depth);
    }
  }

  /** A layer reaches every ancestor of a leaf. */
  lemma {:induction false} AncestorInLayer(n: nat, i: int, k: nat)
    requires 0 <= i < n
    ensures 0 <= Shr(i, k) < LayerLen(n, k)
  {
    if k == 0 {
    } else {
      AncestorInLayer(n, i, k - 1);
    }
  }

  /** Nodes to the right of a layer are empty subtrees, and so is layer k of an empty tree. */
  lemma BeyondLayer(h: Hasher, leaves: seq<int>, k: nat, j: int)
    requires j >= LayerLen(|leaves|, k) || |leaves| == 0
    ensures Node(h, SeqMap(leaves), k, j) == Zero(h, k)
  {
    forall i | Shr(i, k) == j
      ensures At(SeqMap(leaves), i) == 0
    {
      if 0 <= i < |leaves| {
        AncestorInLayer(|leaves|, i, k);
        assert false;
      }
    }
    EmptySubtree(h, SeqMap(leaves), k, j);
  }

  // -------------------------------------------------- when hashing succeeds

  /** The hasher takes every pair of the zero ladder below depth. */
  ghost predicate LadderHashes(h: Hasher, depth: nat) {
    forall k: nat :: k < depth ==> h.takesPair(Zero(h, k), Zero(h, k))
  }

  /** The hasher takes the two children of the node at height k + 1, position j. */
  predicate ChildrenHash(h: Hasher, leaves: seq<int>, k: nat, j: int) {
    h.takesPair(Node(h, SeqMap(leaves), k, 2 * j), Node(h, SeqMap(leaves), k, 2 * j + 1))
  }

  /** The hasher takes every pair met while folding layer k. */
  ghost predicate LayerHashes(h: Hasher, leaves: seq<int>, k: nat) {
    forall j :: 0 <= j && 2 * j < LayerLen(|leaves|, k) ==> ChildrenHash(h, leaves, k, j)
  }

  /** The hasher takes every pair met while folding the leaves up to the root. */
  ghost predicate LayersHash(h: Hasher, leaves: seq<int>, depth: nat) {
    forall k: nat :: k < depth ==> LayerHashes(h, leaves, k)
  }

  /** Over a field hasher, nodes over field leaves are field elements. */
  lemma NodeInField(h: Hasher, p: int, m: map<int, int>, k: nat, j: int)
    requires FieldHasher(h, p)
    requires forall i :: i in m ==> InField(p, m[i])
    ensures InField(p, Node(h, m, k, j))
  {
  }

  /** Over a field hasher, field leaves always hash. */
  lemma FieldLeavesHash(h: Hasher, p: int, leaves: seq<int>, depth: nat)
    requires FieldHasher(h, p)
    requires forall x :: x in leaves ==> InField(p, x)
    ensures LadderHashes(h, depth) && LayersHash(h, leaves, depth)
  {
    forall k: nat | k < depth
      ensures h.takesPair(Zero(h, k), Zero(h, k))
    {
      NodeInField(h, p, map[], k, 0);
      NodeOfNothing(h, k, 0);
    }
    forall k: nat, j | k < depth && 0 <= j && 2 * j < LayerLen(|leaves|, k)
      ensures ChildrenHash(h, leaves, k, j)
    {
      NodeInField(h, p, SeqMap(leaves), k, 2 * j);
      NodeInField(h, p, SeqMap(leaves), k, 2 * j + 1);
    }
  }

  // -------------------------------------------------------------- the layers

  /** The right child at position j, or the zero hash when the layer has ended. */
  function RightOf(current: seq<int>, j: int, zero: int): int
    requires 0 <= 2 * j < |current|
  {
    if 2 * j + 1 < |current| then current[2 * j + 1] else zero
  }

  /** What folding one layer of entries with a given zero hash produces. */
  ghost predicate IsParentLayer(h: Hasher, current: seq<int>, zero: int, zeroAbove: int, next: seq<int>) {
    if |current| == 0 then next == [zeroAbove]
    else
      && |next| == (|current| + 1) / 2
      && forall j :: 0 <= j < |next| ==> next[j] == h.pair(current[2 * j], RightOf(current, j, zero))
  }

  /** The layer holds the nodes of height k, left to right. */
  ghost predicate IsLayer(h: Hasher, leaves: seq<int>, k: nat, layer: seq<int>) {
    && |layer| == LayerLen(|leaves|, k)
    && forall j :: 0 <= j < |layer| ==> layer[j] == Node(h, SeqMap(leaves), k, j)
  }

  lemma ChildrenOfLayer(h: Hasher, leaves: seq<int>, k: nat, layer: seq<int>, j: int)
    requires IsLayer(h, leaves, k, layer) && 0 <= 2 * j < |layer|
    ensures layer[2 * j] == Node(h, SeqMap(leaves), k, 2 * j)
    ensures RightOf(layer, j, Zero(h, k)) == Node(h, SeqMap(leaves), k, 2 * j + 1)
  {
    if 2 * j + 1 >= |layer| {
      BeyondLayer(h, leaves, k, 2 * j + 1);
    }
  }

  /** Folding layer k gives layer k + 1. */
  lemma LayerStep(h: Hasher, leaves: seq<int>, k: nat, layer: seq<int>, next: seq<int>)
    requires IsLayer(h, leaves, k, layer)
    requires IsParentLayer(h, layer, Zero(h, k), Zero(h, k + 1), next)
    ensures IsLayer(h, leaves, k + 1, next)
  {
    LayerEndsAtLastAncestor(|leaves|, k);
    if |layer| == 0 {
      BeyondLayer(h, leaves, k + 1, 0);
    } else {
      forall j | 0 <= j < |next|
        ensures next[j] == Node(h, SeqMap(leaves), k + 1, j)
      {
        ChildrenOfLayer(h, leaves, k, layer, j);
      }
    }
  }

  /** The sibling of an entry: its neighbour in the layer, or the zero hash past the end. */
  lemma SiblingInLayer(h: Hasher, leaves: seq<int>, k: nat, layer: seq<int>, idx: int)
    requires IsLayer(h, leaves, k, layer) && 0 <= idx < |layer|
    ensures Node(h, SeqMap(leaves), k, Sib(idx))
            == if idx % 2 == 1 then layer[idx - 1] else if idx + 1 < |layer| then layer[idx + 1] else Zero(h, k)
  {
    if idx % 2 == 0 && idx + 1 >= |layer| {
      BeyondLayer(h, leaves, k, idx + 1);
    }
  }

  lemma LayerHashesAt(h: Hasher, leaves: seq<int>, k: nat, layer: seq<int>, taken: bool)
    requires IsLayer(h, leaves, k, layer)
    requires taken <==> forall j :: 0 <= 2 * j < |layer| ==> h.takesPair(layer[2 * j], RightOf(layer, j, Zero(h, k)))
    ensures taken <==> LayerHashes(h, leaves, k)
  {
    forall j | 0 <= 2 * j < |layer|
      ensures ChildrenHash(h, leaves, k, j) <==> h.takesPair(layer[2 * j], RightOf(layer, j, Zero(h, k)))
    {
      ChildrenOfLayer(h, leaves, k, layer, j);
    }
  }

  lemma TopLayerNonEmpty(h: Hasher, leaves: seq<int>, depth: nat, top: seq<int>)
    requires depth > 0 && IsLayer(h, leaves, depth, top)
    ensures |top| > 0 && top[0] == Node(h, SeqMap(leaves), depth, 0)
  {
    LayerEndsAtLastAncestor(|leaves|, depth);
  }

  class Tree {
    const depth: int
    const hasher: Hasher
    var leaves: seq<int>
    const zeros: seq<int>

    ghost predicate Valid()
      reads this
    {
      && depth > 0
      && |zeros| == depth + 1
      && forall k: nat :: k <= depth ==> zeros[k] == Zero(hasher, k)
    }

    constructor (depth: int, hasher: Hasher, zeros: seq<int>)
      ensures this.depth == depth && this.hasher == hasher && this.zeros == zeros && leaves == []
    {
      this.depth := depth;
      this.hasher := hasher;
      this.zeros := zeros;
      leaves := [];
    }

    /** Build the zero ladder, or report the depth or the hasher's refusal. */
    static method New(depth: int, hasher: Hasher) returns (r: Result<Tree, TreeError>)
      ensures depth <= 0 ==> r == Err(InvalidDepth)
      ensures depth > 0 && !LadderHashes(hasher, depth) ==> r == Err(HashFailed)
      ensures depth > 0 && LadderHashes(hasher, depth) ==>
                && r.Ok? && fresh(r.value) && r.value.Valid()
                && r.value.depth == depth && r.value.hasher == hasher && r.value.leaves == []
    {
      if depth <= 0 {
        return Err(InvalidDepth);
      }
      var zeros := [0];
      for k := 1 to depth + 1
        invariant |zeros| == k
        invariant forall i: nat :: i < k ==> zeros[i] == Zero(hasher, i)
        invariant LadderHashes(hasher, k - 1)
      {
        var z := hasher.HashPair(zeros[k - 1], zeros[k - 1]);
        if z.None? {
          assert !hasher.takesPair(Zero(hasher, k - 1), Zero(hasher, k - 1));
          return Err(HashFailed);
        }
        zeros := zeros + [z.value];
      }
      var t := new Tree(depth, hasher, zeros);
      return Ok(t);
    }

    method Append(leaf: int) returns (index: int)
      modifies this`leaves
      ensures leaves == old(leaves) + [leaf]
      ensures index == |old(leaves)|
    {
      leaves := leaves + [leaf];
      return |leaves| - 1;
    }

    /** Fold one layer into the next; it fails exactly when the hasher refuses one of its pairs. */
    method NextLevel(current: seq<int>, level: int) returns (next: Result<seq<int>, TreeError>)
      requires Valid() && 0 <= level < depth
      ensures next.Ok? <==> forall j :: 0 <= 2 * j < |current| ==>
                              hasher.takesPair(current[2 * j], RightOf(current, j, zeros[level]))
      ensures next.Ok? ==> IsParentLayer(hasher, current, zeros[level], zeros[level + 1], next.value)
      ensures next.Err? ==> next.error == HashFailed
    {
      var out: seq<int> := [];
      var i := 0;
      while i < |current|
        invariant i == 2 * |out| && i <= |current| + 1
        invariant forall j :: 0 <= j < |out| ==>
                    && hasher.takesPair(current[2 * j], RightOf(current, j, zeros[level]))
                    && out[j] == hasher.pair(current[2 * j], RightOf(current, j, zeros[level]))
      {
        var left := current[i];
        var right;
        if i + 1 < |current| {
          right := current[i + 1];
        } else {
          right := zeros[level];
        }
        var digest := hasher.HashPair(left, right);
        if digest.None? {
          ghost var j := |out|;
          assert !hasher.takesPair(current[2 * j], RightOf(current, j, zeros[level]));
          return Err(HashFailed);
        }
        out := out + [digest.value];
        i := i + 2;
      }
      if |out| == 0 {
        out := out + [zeros[level + 1]];
      }
      return Ok(out);
    }

    /** Every layer from the leaves to the root is the corresponding row of the full tree. */
    method Layers() returns (all: Result<seq<seq<int>>, TreeError>)
      requires Valid()
      ensures all.Ok? <==> LayersHash(hasher, leaves, depth)
      ensures all.Ok? ==> |all.value| == depth + 1
      ensures all.Ok? ==> forall k: nat :: k <= depth ==> IsLayer(hasher, leaves, k, all.value[k])
      ensures all.Err? ==> all.error == HashFailed
    {
      var current := leaves;
      var rows := [current];
      for level := 0 to depth
        invariant |rows| == level + 1
        invariant current == rows[level]
        invariant forall k: nat :: k <= level ==> IsLayer(hasher, leaves, k, rows[k])
        invariant LayersHash(hasher, leaves, level)
      {
        assert IsLayer(hasher, leaves, level, current);
        var next := NextLevel(current, level);
        LayerHashesAt(hasher, leaves, level, current, next.Ok?);
        if next.Err? {
          return Err(HashFailed);
        }
        LayerStep(hasher, leaves, level, current, next.value);
        rows := rows + [next.value];
        current := next.value;
      }
      return Ok(rows);
    }

    /** The root of the full padded tree over the leaves; past capacity, over the first 2^depth of them. */
    method Root() returns (root: Result<int, TreeError>)
      requires Valid()
      ensures root == if LayersHash(hasher, leaves, depth)
                      then Ok(Node(hasher, SeqMap(leaves), depth, 0)) else Err(HashFailed)
    {
      var all := Layers();
      if all.Err? {
        return Err(all.error);
      }
      TopLayerNonEmpty(hasher, leaves, depth, all.value[depth]);
      return Ok(all.value[depth][0]);
    }

    /** The siblings and position bits of the leaf at index, with the root. */
    method Proof(index: int) returns (path: Result<Path, TreeError>)
      requires Valid()
      ensures path == if index < 0 || index >= |leaves| then Err(IndexOutOfRange)
                      else if !LayersHash(hasher, leaves, depth) then Err(HashFailed)
                      else Ok(Path(Siblings(hasher, SeqMap(leaves), index, depth), Bits(index, depth),
                                   Node(hasher, SeqMap(leaves), depth, 0)))
    {
      if index < 0 || index >= |leaves| {
        return Err(IndexOutOfRange);
      }
      var all := Layers();
      if all.Err? {
        return Err(all.error);
      }
      var elements: seq<int> := [];
      var bits: seq<int> := [];
      var idx := index;
      for level := 0 to depth
        invariant idx == Shr(index, level)
        invariant elements == Siblings(hasher, SeqMap(leaves), index, level)
        invariant bits == Bits(index, level)
      {
        var layer := all.value[level];
        AncestorInLayer(|leaves|, index, level);
        SiblingInLayer(hasher, leaves, level, layer, idx);
        if idx % 2 == 0 {
          bits := bits + [0];
          if idx + 1 < |layer| {
            elements := elements + [layer[idx + 1]];
          } else {
            elements := elements + [zeros[level]];
          }
        } else {
          bits := bits + [1];
          elements := elements + [layer[idx - 1]];
        }
        idx := idx / 2;
      }
      TopLayerNonEmpty(hasher, leaves, depth, all.value[depth]);
      return Ok(Path(elements, bits, all.value[depth][0]));
    }
  }

  // ---------------------------------------------------------- what paths prove

  /** The path returned for a leaf within capacity folds to the root returned. */
  lemma PathFoldsToRoot(h: Hasher, leaves: seq<int>, index: int, depth: nat)
    requires 0 <= index < |leaves| && index < Pow2(depth)
    ensures LittleEndian(Bits(index, depth)) == index
    ensures Fold(h, leaves[index], Siblings(h, SeqMap(leaves), index, depth), Bits(index, depth))
            == Node(h, SeqMap(leaves), depth, 0)
  {
    BitsAreDigits(index, depth);
    PathComplete(h, SeqMap(leaves), index, depth);
    ShrRoot(index, depth);
  }

  /** Leaves past capacity never reach the root. */
  lemma RootStopsAtCapacity(h: Hasher, leaves: seq<int>, depth: nat)
    requires |leaves| >= Pow2(depth)
    ensures Node(h, SeqMap(leaves), depth, 0) == Node(h, SeqMap(leaves[..Pow2(depth)]), depth, 0)
  {
    forall i | Shr(i, depth) == 0
      ensures At(SeqMap(leaves), i) == At(SeqMap(leaves[..Pow2(depth)]), i)
    {
      ShrRoot(i, depth);
    }
    NodeDepends(h, SeqMap(leaves), SeqMap(leaves[..Pow2(depth)]), depth, 0);
  }

  /**
   * A path returned for any leaf, within capacity or past it, folds to the node
   * above its own block of 2^depth leaves. It folds to the root when that block
   * repeats the first one; and when it folds to the root, the block does repeat
   * the first one or BindingClash returns two different pairs with one digest.
   */
  lemma PathReachesRoot(h: Hasher, leaves: seq<int>, index: int, depth: nat)
    requires 0 <= index < |leaves|
    ensures var m := SeqMap(leaves);
            var folded := Fold(h, leaves[index], Siblings(h, m, index, depth), Bits(index, depth));
            var reaches := folded == Node(h, m, depth, 0);
            && (SameBelow(m, 0, m, Shr(index, depth), depth) ==> reaches)
            && (reaches ==> match BindingClash(h, m, 0, m, Shr(index, depth), depth)
                            case Some(c) => IsClash(h, c)
                            case None => SameBelow(m, 0, m, Shr(index, depth), depth))
  {
    var m := SeqMap(leaves);
    PathComplete(h, m, index, depth);
    if Node(h, m, depth, 0) == Node(h, m, depth, Shr(index, depth)) {
      NodeBinding(h, m, 0, m, Shr(index, depth), depth);
    }
    if SameBelow(m, 0, m, Shr(index, depth), depth) {
      SameBelowSameNode(h, m, 0, m, Shr(index, depth), depth);
    }
  }

  /** In a repeated block, a leaf stands in the first block too, at its low bits. */
  lemma RepeatedBlock(leaves: seq<int>, index: int, depth: nat)
    requires 0 <= index < |leaves|
    requires SameBelow(SeqMap(leaves), 0, SeqMap(leaves), Shr(index, depth), depth)
    ensures 0 <= LittleEndian(Bits(index, depth)) < Pow2(depth)
    ensures At(SeqMap(leaves), LittleEndian(Bits(index, depth))) == leaves[index]
  {
    var m := SeqMap(leaves);
    SameBelowAt(m, 0, m, Shr(index, depth), Bits(index, depth));
    BitsDescend(index, depth);
    PathNamesLeaf(Bits(index, depth));
  }

  /** Three leaves overfill a tree of depth 1: two top entries, and the third leaf's path misses the root. */
  lemma OverfullExample()
    ensures LayerLen(3, 1) == 2
    ensures var sum := Hasher((a, b) => true, (a, b) => a + b, (a, b, c) => true, (a, b, c) => a + b + c);
            var leaves := [1, 1, 5];
            Fold(sum, leaves[2], Siblings(sum, SeqMap(leaves), 2, 1), Bits(2, 1)) != Node(sum, SeqMap(leaves), 1, 0)
  {
    var sum := Hasher((a, b) => true, (a, b) => a + b, (a, b, c) => true, (a, b, c) => a + b + c);
    var m := SeqMap([1, 1, 5]);
    PathComplete(sum, m, 2, 1);
    assert Shr(2, 1) == 1;
    assert Node(sum, m, 1, 1) == At(m, 2) + At(m, 3);
    assert Node(sum, m, 1, 0) == At(m, 0) + At(m, 1);
  }
}
