/** Three-way comparison as PHP's `<=>` computes it, and lexicographic sort keys. */
module Ranks {

  /** PHP's spaceship operator on integers. */
  function Spaceship(x: int, y: int): (r: int)
    ensures r == -1 <==> x < y
    ensures r == 0 <==> x == y
    ensures r == 1 <==> x > y
  {
    if x < y then -1 else if x == y then 0 else 1
  }

  /** A sort key of three integers, compared component by component. */
  datatype Rank = Rank(tier: int, major: int, minor: int)

  /** Strict lexicographic order on keys. */
  predicate Below(a: Rank, b: Rank) {
    || a.tier < b.tier
    || (a.tier == b.tier && a.major < b.major)
    || (a.tier == b.tier && a.major == b.major && a.minor < b.minor)
  }

  /** The lexicographic order is a strict total order. */
  lemma BelowIsStrictTotalOrder(a: Rank, b: Rank, c: Rank)
    ensures !Below(a, a)
    ensures Below(a, b) ==> !Below(b, a)
    ensures Below(a, b) && Below(b, c) ==> Below(a, c)
    ensures a == b || Below(a, b) || Below(b, a)
  {
  }

  /** Keys that are not out of order stay not out of order along a chain. */
  lemma NotBelowTransitive(a: Rank, b: Rank, c: Rank)
    requires !Below(b, a) && !Below(c, b)
    ensures !Below(c, a)
  {
  }

  /** `<=>` of two keys, component by component. */
  function CompareRanks(a: Rank, b: Rank): (r: int)
    ensures r == -1 <==> Below(a, b)
    ensures r == 0 <==> a == b
    ensures r == 1 <==> Below(b, a)
  {
    if a.tier != b.tier then Spaceship(a.tier, b.tier)
    else if a.major != b.major then Spaceship(a.major, b.major)
    else Spaceship(a.minor, b.minor)
  }
}
