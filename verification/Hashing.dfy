/**
 * The hash seam. A hasher is a deterministic function of two or three integers
 * (the only two arities the program uses) that may refuse its input. Nothing
 * here says it is injective: over a finite field it cannot be.
 */
module Hashing {
  import opened Prelude

  datatype Hasher = Hasher(
    takesPair: (int, int) -> bool,
    pair: (int, int) -> int,
    takesTriple: (int, int, int) -> bool,
    triple: (int, int, int) -> int)
  {
    /** A two-input hash as the Go code calls it: a digest, or the hasher's error. */
    function HashPair(left: int, right: int): Option<int> {
      if takesPair(left, right) then Some(pair(left, right)) else None
    }
  }

  predicate InField(p: int, x: int) {
    0 <= x < p
  }

  /**
   * What the deployed Poseidon hasher provides over a field of order p: two or
   * three field elements are never refused, and a digest is a field element.
   * Inputs outside the field may be refused or not.
   */
  ghost predicate FieldHasher(h: Hasher, p: int) {
    && p > 1
    && (forall a, b :: InField(p, a) && InField(p, b) ==> h.takesPair(a, b))
    && (forall a, b, c :: InField(p, a) && InField(p, b) && InField(p, c) ==> h.takesTriple(a, b, c))
    && (forall a, b :: InField(p, h.pair(a, b)))
    && (forall a, b, c :: InField(p, h.triple(a, b, c)))
  }

  /** Two different pairs with one digest. */
  datatype Clash = Clash(left: (int, int), right: (int, int))

  predicate IsClash(h: Hasher, c: Clash) {
    && c.left != c.right
    && h.pair(c.left.0, c.left.1) == h.pair(c.right.0, c.right.1)
  }
}
