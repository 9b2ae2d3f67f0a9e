/** The whole replacement order of the tree pseudo-LRU, and who is chosen among valid candidates. */
module LruOrder {
  import opened Powers
  import opened LruTree

  /** The node of depth d that stands at rank r. */
  function Order(bits: Bits, n: nat, d: nat, r: nat): (j: nat)
    requires Fits(bits, n) && d <= n && r < Pow2(d)
    ensures j < Pow2(d)
  {
    if d == 0 then 0
    else
      var parent := Order(bits, n, d - 1, r / 2);
      2 * parent + (if Bit(bits, n, d - 1, parent) == (r % 2 == 0) then 1 else 0)
  }

  /** The order is a permutation, and Rank is its inverse. */
  lemma {:induction false} RankOfOrder(bits: Bits, n: nat, d: nat, r: nat)
    requires Fits(bits, n) && d <= n && r < Pow2(d)
    ensures Rank(bits, n, d, Order(bits, n, d, r)) == r
  {
    if d > 0 {
      RankOfOrder(bits, n, d - 1, r / 2);
      var j := Order(bits, n, d, r);
      assert j / 2 == Order(bits, n, d - 1, r / 2);
    }
  }

  /** One level of the inverse. */
  lemma OrderStep(bits: Bits, n: nat, d: nat, j: nat)
    requires Fits(bits, n) && 0 < d <= n && j < Pow2(d)
    requires Order(bits, n, d - 1, Rank(bits, n, d - 1, j / 2)) == j / 2
    ensures Order(bits, n, d, Rank(bits, n, d, j)) == j
  {
    var up, away := Rank(bits, n, d - 1, j / 2), Away(bits, n, d - 1, j);
    var r := Rank(bits, n, d, j);
    assert r == 2 * up + (if away then 1 else 0);
    assert r / 2 == up && (r % 2 == 0 <==> !away);
  }

  lemma {:induction false} OrderOfRank(bits: Bits, n: nat, d: nat, j: nat)
    requires Fits(bits, n) && d <= n && j < Pow2(d)
    ensures Order(bits, n, d, Rank(bits, n, d, j)) == j
  {
    if d > 0 {
      OrderOfRank(bits, n, d - 1, j / 2);
      OrderStep(bits, n, d, j);
    }
  }

  /** An updated index comes last. */
  lemma {:induction false} UpdatedIsLast(bits: Bits, n: nat, x: nat, d: nat)
    requires Fits(bits, n) && x < Pow2(n) && d <= n
    ensures Rank(Update(bits, n, x), n, d, Ancestor(x, n, d)) == Pow2(d) - 1
  {
    if d > 0 {
      UpdatedIsLast(bits, n, x, d - 1);
      AncestorStep(x, n, d - 1);
      UpdatedBit(bits, n, x, d - 1, Ancestor(x, n, d - 1));
    }
  }

  /** Ranks of leaves order as the ranks of their ancestors do. */
  lemma {:induction false} AncestorsOrder(bits: Bits, n: nat, d: nat, e: nat, x: nat, y: nat)
    requires Fits(bits, n) && d <= e <= n && x < Pow2(n) && y < Pow2(n)
    requires Rank(bits, n, d, Ancestor(x, n, d)) < Rank(bits, n, d, Ancestor(y, n, d))
    ensures Rank(bits, n, e, Ancestor(x, n, e)) < Rank(bits, n, e, Ancestor(y, n, e))
  {
    if d < e {
      AncestorsOrder(bits, n, d, e - 1, x, y);
      AncestorStep(x, n, e - 1);
      AncestorStep(y, n, e - 1);
    }
  }

  /** x is the valid index of the least rank. */
  ghost predicate FirstValid(bits: Bits, n: nat, valid: seq<bool>, x: nat)
    requires Fits(bits, n) && |valid| == Pow2(n) && x < Pow2(n)
  {
    valid[x] && forall v :: 0 <= v < Pow2(n) && valid[v] ==> Rank(bits, n, n, x) <= Rank(bits, n, n, v)
  }

  /** With all bits clear, as after reset, the order is that of the indices, and index 0 is picked. */
  lemma {:induction false} ResetOrder(bits: Bits, n: nat, d: nat, r: nat)
    requires Fits(bits, n) && d <= n && r < Pow2(d) && forall p :: 0 <= p < |bits| ==> !bits[p]
    ensures Order(bits, n, d, r) == r && Rank(bits, n, d, r) == r && Path(bits, n, d) == 0
  {
    if d > 0 {
      ResetOrder(bits, n, d - 1, r / 2);
      PositionFits(n, d - 1, r / 2);
      PositionFits(n, d - 1, 0);
    }
  }
}
