/** The heap of bits behind the tree pseudo-LRU, over an arbitrary depth n: node j of depth d is bit
    2^d - 1 + j, its children are nodes 2j and 2j+1 of depth d+1, and the leaves are the indices.
    A bit of 0 points at the left child, 1 at the right one. */
module LruTree {
  import opened Powers

  type Bits = seq<bool>

  ghost predicate Fits(bits: Bits, n: nat) {
    |bits| == Pow2(n) - 1
  }

  function Position(d: nat, j: nat): nat {
    Pow2(d) - 1 + j
  }

  lemma PositionFits(n: nat, d: nat, j: nat)
    requires d < n && j < Pow2(d)
    ensures Position(d, j) < Pow2(n) - 1
  {
    Pow2Monotone(d + 1, n);
  }

  lemma PositionInjective(d: nat, j: nat, d': nat, j': nat)
    requires j < Pow2(d) && j' < Pow2(d') && Position(d, j) == Position(d', j')
    ensures d == d' && j == j'
  {
    if d < d' { Pow2Monotone(d + 1, d'); }
    if d' < d { Pow2Monotone(d' + 1, d); }
  }

  /** Every bit position is a node of some depth. */
  lemma {:induction false} PositionOnto(n: nat, p: nat) returns (d: nat, j: nat)
    requires p < Pow2(n) - 1
    ensures d < n && j < Pow2(d) && p == Position(d, j)
  {
    if p < Pow2(n - 1) - 1 { d, j := PositionOnto(n - 1, p); }
    else { d, j := n - 1, p - (Pow2(n - 1) - 1); }
  }

  function Bit(bits: Bits, n: nat, d: nat, j: nat): bool
    requires Fits(bits, n) && d < n && j < Pow2(d)
  {
    PositionFits(n, d, j);
    bits[Position(d, j)]
  }

  /** The ancestor at depth d of leaf x. */
  function Ancestor(x: nat, n: nat, d: nat): (j: nat)
    requires x < Pow2(n) && d <= n
    ensures j < Pow2(d)
  {
    ShrBound(x, n, n - d);
    Shr(x, n - d)
  }

  // ---- Update: every node on the path of x is made to point away from x --------------------

  /** The bits after the first i steps, from the leaf upwards, of updating x. */
  function Updating(bits: Bits, n: nat, x: nat, i: nat): (r: Bits)
    requires Fits(bits, n) && x < Pow2(n) && i <= n
    ensures Fits(r, n)
  {
    if i == 0 then bits
    else
      var before := Updating(bits, n, x, i - 1);
      var j := Ancestor(x, n, n - i);
      PositionFits(n, n - i, j);
      before[Position(n - i, j) := Shr(x, i - 1) % 2 == 0]
  }

  function Update(bits: Bits, n: nat, x: nat): (r: Bits)
    requires Fits(bits, n) && x < Pow2(n)
    ensures Fits(r, n)
  {
    Updating(bits, n, x, n)
  }

  lemma {:induction false} UpdatingBit(bits: Bits, n: nat, x: nat, i: nat, d: nat, j: nat)
    requires Fits(bits, n) && x < Pow2(n) && i <= n && d < n && j < Pow2(d)
    ensures Bit(Updating(bits, n, x, i), n, d, j) ==
            if d >= n - i && j == Ancestor(x, n, d) then Ancestor(x, n, d + 1) % 2 == 0 else Bit(bits, n, d, j)
  {
    if i > 0 {
      UpdatingBit(bits, n, x, i - 1, d, j);
      var a := Ancestor(x, n, n - i);
      PositionFits(n, d, j);
      PositionFits(n, n - i, a);
      if Position(d, j) == Position(n - i, a) {
        PositionInjective(d, j, n - i, a);
        assert Ancestor(x, n, d + 1) == Shr(x, i - 1);
      }
    }
  }

  /** Exactly the nodes on the path of x change: each is made to point at the child off the path. */
  lemma UpdatedBit(bits: Bits, n: nat, x: nat, d: nat, j: nat)
    requires Fits(bits, n) && x < Pow2(n) && d < n && j < Pow2(d)
    ensures Bit(Update(bits, n, x), n, d, j) ==
            if j == Ancestor(x, n, d) then Ancestor(x, n, d + 1) % 2 == 0 else Bit(bits, n, d, j)
  {
    UpdatingBit(bits, n, x, n, d, j);
  }

  // ---- Pick: follow the bits from the root --------------------------------------------------

  /** The node reached at depth i. */
  function Path(bits: Bits, n: nat, i: nat): (j: nat)
    requires Fits(bits, n) && i <= n
    ensures j < Pow2(i)
  {
    if i == 0 then 0
    else
      var j := Path(bits, n, i - 1);
      2 * j + (if Bit(bits, n, i - 1, j) then 1 else 0)
  }

  function Pick(bits: Bits, n: nat): (x: nat)
    requires Fits(bits, n)
    ensures x < Pow2(n)
  {
    Path(bits, n, n)
  }

  // ---- Three views of a leaf's position in the replacement order -------------------------

  /** The parent of node j of depth d+1 points at its other child. */
  predicate Away(bits: Bits, n: nat, d: nat, j: nat)
    requires Fits(bits, n) && d < n && j < Pow2(d + 1)
  {
    (j % 2 == 1) != Bit(bits, n, d, j / 2)
  }

  /** The rank of node j of depth d in the replacement order of its depth: read from the most
      significant bit, its bits are those of j XOR the tree bits on the path to j. */
  function Rank(bits: Bits, n: nat, d: nat, j: nat): (r: nat)
    requires Fits(bits, n) && d <= n && j < Pow2(d)
    ensures r < Pow2(d)
  {
    if d == 0 then 0
    else 2 * Rank(bits, n, d - 1, j / 2) + (if Away(bits, n, d - 1, j) then 1 else 0)
  }

  /** The same bits read from the least significant one: the number of picks still to come before j. */
  function Turn(bits: Bits, n: nat, d: nat, j: nat): (r: nat)
    requires Fits(bits, n) && d <= n && j < Pow2(d)
    ensures r < Pow2(d)
  {
    if d == 0 then 0
    else Turn(bits, n, d - 1, j / 2) + (if Away(bits, n, d - 1, j) then Pow2(d - 1) else 0)
  }

  /** How many nodes above node j of depth d point towards it. */
  function Towards(bits: Bits, n: nat, d: nat, j: nat): (r: nat)
    requires Fits(bits, n) && d <= n && j < Pow2(d)
    ensures r <= d
  {
    if d == 0 then 0
    else Towards(bits, n, d - 1, j / 2) + (if Away(bits, n, d - 1, j) then 0 else 1)
  }

  /** All three say when a node is picked. */
  lemma {:induction false} OnPath(bits: Bits, n: nat, d: nat, j: nat)
    requires Fits(bits, n) && d <= n && j < Pow2(d)
    ensures j == Path(bits, n, d) <==> Rank(bits, n, d, j) == 0
    ensures j == Path(bits, n, d) <==> Turn(bits, n, d, j) == 0
    ensures j == Path(bits, n, d) <==> Towards(bits, n, d, j) == d
  {
    if d > 0 { OnPath(bits, n, d - 1, j / 2); }
  }

  lemma AncestorStep(x: nat, n: nat, d: nat)
    requires x < Pow2(n) && d < n
    ensures Ancestor(x, n, d) == Ancestor(x, n, d + 1) / 2
  {
  }

  lemma {:induction false} PathIsAncestor(bits: Bits, n: nat, d: nat)
    requires Fits(bits, n) && d <= n
    ensures Path(bits, n, d) == Ancestor(Pick(bits, n), n, d)
    decreases n - d
  {
    if d < n {
      PathIsAncestor(bits, n, d + 1);
      AncestorStep(Pick(bits, n), n, d);
    }
  }

  // ---- The full cycle ---------------------------------------------------------------------------

  /** One round: pick, report the pick as used, clock. */
  function Round(bits: Bits, n: nat): (r: Bits)
    requires Fits(bits, n)
    ensures Fits(r, n)
  {
    Update(bits, n, Pick(bits, n))
  }

  function Rounds(bits: Bits, n: nat, k: nat): (r: Bits)
    requires Fits(bits, n)
    ensures Fits(r, n)
  {
    if k == 0 then bits else Round(Rounds(bits, n, k - 1), n)
  }

  /** A round changes exactly the nodes on the picked path, and flips them. */
  lemma RoundFlipsPath(bits: Bits, n: nat, d: nat, j: nat)
    requires Fits(bits, n) && d < n && j < Pow2(d)
    ensures Bit(Round(bits, n), n, d, j) == ((j == Path(bits, n, d)) != Bit(bits, n, d, j))
  {
    PathIsAncestor(bits, n, d);
    PathIsAncestor(bits, n, d + 1);
    UpdatedBit(bits, n, Pick(bits, n), d, j);
  }

  /** A round counts every turn down by one, modulo the size of the depth. */
  lemma {:induction false} RoundCountsDown(bits: Bits, n: nat, d: nat, j: nat)
    requires Fits(bits, n) && d <= n && j < Pow2(d)
    ensures Turn(Round(bits, n), n, d, j) ==
            if Turn(bits, n, d, j) == 0 then Pow2(d) - 1 else Turn(bits, n, d, j) - 1
  {
    if d > 0 {
      RoundCountsDown(bits, n, d - 1, j / 2);
      OnPath(bits, n, d - 1, j / 2);
      RoundFlipsPath(bits, n, d - 1, j / 2);
    }
  }

  lemma {:induction false} RoundsCountDown(bits: Bits, n: nat, d: nat, j: nat, k: nat)
    requires Fits(bits, n) && d <= n && j < Pow2(d) && k <= Pow2(d)
    ensures var t := Turn(bits, n, d, j);
            Turn(Rounds(bits, n, k), n, d, j) == if k <= t then t - k else Pow2(d) + t - k
  {
    if k > 0 {
      RoundsCountDown(bits, n, d, j, k - 1);
      RoundCountsDown(Rounds(bits, n, k - 1), n, d, j);
    }
  }

  lemma {:induction false} RoundsCompose(bits: Bits, n: nat, a: nat, b: nat)
    requires Fits(bits, n)
    ensures Rounds(bits, n, a + b) == Rounds(Rounds(bits, n, a), n, b)
  {
    if b > 0 { RoundsCompose(bits, n, a, b - 1); }
  }

  /** After 2^e rounds every turn of a depth up to e is what it was. */
  lemma {:induction false} TurnsReturn(bits: Bits, n: nat, e: nat, d: nat, j: nat)
    requires Fits(bits, n) && d <= e <= n && j < Pow2(d)
    ensures Turn(Rounds(bits, n, Pow2(e)), n, d, j) == Turn(bits, n, d, j)
    decreases e
  {
    if d == e {
      RoundsCountDown(bits, n, d, j, Pow2(d));
    } else {
      var half := Pow2(e - 1);
      RoundsCompose(bits, n, half, half);
      TurnsReturn(bits, n, e - 1, d, j);
      TurnsReturn(Rounds(bits, n, half), n, e - 1, d, j);
    }
  }

  ghost predicate PickedWithin(bits: Bits, n: nat, rounds: nat, x: nat)
    requires Fits(bits, n)
  {
    exists k :: 0 <= k < rounds && Pick(Rounds(bits, n, k), n) == x
  }

  /** Within one cycle each index is picked in the round its turn names, and in no other. */
  lemma PickedOnTurn(bits: Bits, n: nat, k: nat, x: nat)
    requires Fits(bits, n) && k < Pow2(n) && x < Pow2(n)
    ensures Pick(Rounds(bits, n, k), n) == x <==> Turn(bits, n, n, x) == k
  {
    RoundsCountDown(bits, n, n, x, k);
    OnPath(Rounds(bits, n, k), n, n, x);
  }

  lemma NodeReturns(bits: Bits, n: nat, d: nat, j: nat)
    requires Fits(bits, n) && d < n && j < Pow2(d)
    ensures Bit(Rounds(bits, n, Pow2(n)), n, d, j) == Bit(bits, n, d, j)
  {
    TurnsReturn(bits, n, n, d, j);
    TurnsReturn(bits, n, n, d + 1, 2 * j);
    TurnTellsBit(bits, n, d, j);
    TurnTellsBit(Rounds(bits, n, Pow2(n)), n, d, j);
  }

  lemma TurnTellsBit(bits: Bits, n: nat, d: nat, j: nat)
    requires Fits(bits, n) && d < n && j < Pow2(d)
    ensures Bit(bits, n, d, j) <==> Turn(bits, n, d + 1, 2 * j) != Turn(bits, n, d, j)
  {
  }

  lemma BitsReturn(bits: Bits, n: nat)
    requires Fits(bits, n)
    ensures Rounds(bits, n, Pow2(n)) == bits
  {
    var bits' := Rounds(bits, n, Pow2(n));
    forall p | 0 <= p < |bits| ensures bits'[p] == bits[p] {
      var d, j := PositionOnto(n, p);
      NodeReturns(bits, n, d, j);
    }
  }

  /** From any bits, 2^n rounds pick every index exactly once and leave the bits as they were. */
  lemma FullCycle(bits: Bits, n: nat)
    requires Fits(bits, n)
    ensures Rounds(bits, n, Pow2(n)) == bits
    ensures forall x :: 0 <= x < Pow2(n) ==> PickedWithin(bits, n, Pow2(n), x)
    ensures forall k, k' :: 0 <= k < k' < Pow2(n) ==> Pick(Rounds(bits, n, k), n) != Pick(Rounds(bits, n, k'), n)
  {
    BitsReturn(bits, n);
    forall x | 0 <= x < Pow2(n) ensures PickedWithin(bits, n, Pow2(n), x) {
      PickedOnTurn(bits, n, Turn(bits, n, n, x), x);
    }
    forall k, k' | 0 <= k < k' < Pow2(n)
      ensures Pick(Rounds(bits, n, k), n) != Pick(Rounds(bits, n, k'), n)
    {
      PickedOnTurn(bits, n, k, Pick(Rounds(bits, n, k), n));
      PickedOnTurn(bits, n, k', Pick(Rounds(bits, n, k), n));
    }
  }

  // ---- Protection ---------------------------------------------------------------------------------

  function UpdateAll(bits: Bits, n: nat, ys: seq<nat>): (r: Bits)
    requires Fits(bits, n) && forall k :: 0 <= k < |ys| ==> ys[k] < Pow2(n)
    ensures Fits(r, n)
  {
    if ys == [] then bits else Update(UpdateAll(bits, n, ys[..|ys| - 1]), n, ys[|ys| - 1])
  }

  /** An update turns at most one more node of any path towards its leaf, and every node of its own
      path away. */
  lemma {:induction false} UpdateTurnsOne(bits: Bits, n: nat, y: nat, d: nat, j: nat)
    requires Fits(bits, n) && y < Pow2(n) && d <= n && j < Pow2(d)
    ensures Towards(Update(bits, n, y), n, d, j) <= Towards(bits, n, d, j) + 1
    ensures j == Ancestor(y, n, d) ==> Towards(Update(bits, n, y), n, d, j) == 0
  {
    if d > 0 {
      UpdateTurnsOne(bits, n, y, d - 1, j / 2);
      UpdatedBit(bits, n, y, d - 1, j / 2);
      AncestorStep(y, n, d - 1);
    }
  }

  lemma {:induction false} TowardsBound(bits: Bits, n: nat, x: nat, ys: seq<nat>)
    requires Fits(bits, n) && x < Pow2(n) && forall k :: 0 <= k < |ys| ==> ys[k] < Pow2(n)
    ensures Towards(UpdateAll(Update(bits, n, x), n, ys), n, n, x) <= |ys|
  {
    if ys == [] {
      UpdateTurnsOne(bits, n, x, n, x);
    } else {
      TowardsBound(bits, n, x, ys[..|ys| - 1]);
      UpdateTurnsOne(UpdateAll(Update(bits, n, x), n, ys[..|ys| - 1]), n, ys[|ys| - 1], n, x);
    }
  }

  /** Once updated, x is not picked again before n further updates, whatever they are. */
  lemma Protection(bits: Bits, n: nat, x: nat, ys: seq<nat>)
    requires Fits(bits, n) && x < Pow2(n) && forall k :: 0 <= k < |ys| ==> ys[k] < Pow2(n)
    requires |ys| < n
    ensures Pick(UpdateAll(Update(bits, n, x), n, ys), n) != x
  {
    TowardsBound(bits, n, x, ys);
    OnPath(UpdateAll(Update(bits, n, x), n, ys), n, n, x);
  }

  // ---- The bound is exact ------------------------------------------------------------------------

  function Sibling(j: nat): (r: nat)
    ensures r != j && r / 2 == j / 2 && (r % 2 == 0 <==> j % 2 == 1)
  {
    assert (2 * (j / 2) + 1) / 2 == j / 2;
    if j % 2 == 0 then j + 1 else j - 1
  }

  /** A leaf below node j of depth d. */
  lemma {:induction false} LeafBelow(n: nat, d: nat, j: nat) returns (x: nat)
    requires d <= n && j < Pow2(d)
    ensures x < Pow2(n) && Ancestor(x, n, d) == j
    decreases n - d
  {
    if d == n { x := j; }
    else {
      x := LeafBelow(n, d + 1, 2 * j);
      AncestorStep(x, n, d);
    }
  }

  /** Leaves that part ways at depth d stay apart below it. */
  lemma {:induction false} StayApart(n: nat, d: nat, e: nat, x: nat, y: nat)
    requires d <= e <= n && x < Pow2(n) && y < Pow2(n) && Ancestor(x, n, d) != Ancestor(y, n, d)
    ensures Ancestor(x, n, e) != Ancestor(y, n, e)
  {
    if d < e {
      StayApart(n, d, e - 1, x, y);
      AncestorStep(x, n, e - 1);
      AncestorStep(y, n, e - 1);
    }
  }

  /** The node at depth d on the path of x points towards x. */
  predicate Toward(bits: Bits, n: nat, d: nat, x: nat)
    requires Fits(bits, n) && d < n && x < Pow2(n)
  {
    !Away(bits, n, d, Ancestor(x, n, d + 1))
  }

  /** The nodes from depth d down point towards x. */
  ghost predicate PointsAt(bits: Bits, n: nat, x: nat, d: nat)
    requires Fits(bits, n) && x < Pow2(n)
  {
    forall e :: d <= e < n ==> Toward(bits, n, e, x)
  }

  /** Updating a leaf of the sibling subtree turns the node above towards x and none below. */
  lemma SiblingUpdate(bits: Bits, n: nat, x: nat, y: nat, d: nat)
    requires Fits(bits, n) && x < Pow2(n) && y < Pow2(n) && d < n && PointsAt(bits, n, x, d + 1)
    requires Ancestor(y, n, d + 1) == Sibling(Ancestor(x, n, d + 1))
    ensures x != y && PointsAt(Update(bits, n, y), n, x, d)
  {
    forall e | d <= e < n ensures Toward(Update(bits, n, y), n, e, x) {
      assert d < e ==> Toward(bits, n, e, x);
      AncestorStep(x, n, e);
      AncestorStep(y, n, e);
      UpdatedBit(bits, n, y, e, Ancestor(x, n, e));
      if d < e { StayApart(n, d + 1, e, x, y); }
    }
  }

  lemma {:induction false} AllTowards(bits: Bits, n: nat, x: nat, d: nat)
    requires Fits(bits, n) && x < Pow2(n) && d <= n && PointsAt(bits, n, x, 0)
    ensures Towards(bits, n, d, Ancestor(x, n, d)) == d
  {
    if d > 0 {
      AllTowards(bits, n, x, d - 1);
      assert Toward(bits, n, d - 1, x);
      AncestorStep(x, n, d - 1);
    }
  }

  lemma NextExposed(bits: Bits, n: nat, x: nat, d: nat) returns (y: nat)
    requires Fits(bits, n) && x < Pow2(n) && d < n && PointsAt(bits, n, x, d + 1)
    ensures y < Pow2(n) && y != x && PointsAt(Update(bits, n, y), n, x, d)
  {
    var me := Ancestor(x, n, d + 1);
    assert Sibling(me) / 2 == me / 2 < Pow2(d) by { AncestorStep(x, n, d); }
    y := LeafBelow(n, d + 1, Sibling(me));
    SiblingUpdate(bits, n, x, y, d);
  }

  /** k updates of other leaves, from the deepest sibling subtree upwards, turn k nodes towards x. */
  lemma {:induction false} Exposure(bits: Bits, n: nat, x: nat, k: nat) returns (ys: seq<nat>)
    requires Fits(bits, n) && x < Pow2(n) && k <= n
    ensures |ys| == k && forall i :: 0 <= i < k ==> ys[i] < Pow2(n) && ys[i] != x
    ensures PointsAt(UpdateAll(bits, n, ys), n, x, n - k)
  {
    if k == 0 { ys := []; }
    else {
      var front := Exposure(bits, n, x, k - 1);
      var y := NextExposed(UpdateAll(bits, n, front), n, x, n - k);
      ys := front + [y];
      assert ys[..k - 1] == front;
    }
  }

  /** The bound is exact: whatever the bits and whichever index was updated, some n further updates of
      other indices make it the next pick. */
  lemma ProtectionIsTight(bits: Bits, n: nat, x: nat)
    requires Fits(bits, n) && x < Pow2(n)
    ensures exists ys: seq<nat> :: |ys| == n && (forall i :: 0 <= i < n ==> ys[i] < Pow2(n) && ys[i] != x)
                                   && Pick(UpdateAll(Update(bits, n, x), n, ys), n) == x
  {
    var ys := Exposure(Update(bits, n, x), n, x, n);
    var after := UpdateAll(Update(bits, n, x), n, ys);
    AllTowards(after, n, x, n);
    OnPath(after, n, n, x);
  }
}
