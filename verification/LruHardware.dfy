/** The hardware trees: carries run from the write port up to the root, selection runs from the root
    down to the one-hot output, and one flip-flop per node holds its bit. */
module LruHardware {
  import opened Powers
  import opened LruTree
  import opened LruOrder

  /** The node a bit position belongs to. */
  function NodeDepth(n: nat, p: nat): (d: nat)
    requires p < Pow2(n) - 1
    ensures d < n
  {
    if p < Pow2(n - 1) - 1 then NodeDepth(n - 1, p) else n - 1
  }

  function NodeIndex(n: nat, p: nat): (j: nat)
    requires p < Pow2(n) - 1
    ensures j < Pow2(NodeDepth(n, p)) && Position(NodeDepth(n, p), j) == p
  {
    if p < Pow2(n - 1) - 1 then NodeIndex(n - 1, p) else p - (Pow2(n - 1) - 1)
  }

  /** The carry at node j of depth d: some write-port wire below it is high. */
  predicate Carry(w: seq<bool>, wen: bool, n: nat, d: nat, j: nat)
    requires |w| == Pow2(n) && d <= n && j < Pow2(d)
    decreases n - d
  {
    if d == n then w[j] && wen
    else Carry(w, wen, n, d + 1, 2 * j) || Carry(w, wen, n, d + 1, 2 * j + 1)
  }

  /** The flip-flops after a clock edge: an enabled one takes the carry of its left child. */
  function Clocked(q: Bits, n: nat, w: seq<bool>, wen: bool): (r: Bits)
    requires Fits(q, n) && |w| == Pow2(n)
    ensures Fits(r, n)
  {
    seq(|q|, p requires 0 <= p < |q| =>
      var d, j := NodeDepth(n, p), NodeIndex(n, p);
      if Carry(w, wen, n, d, j) then Carry(w, wen, n, d + 1, 2 * j) else q[p])
  }

  /** The swap unit's selection. */
  predicate SwapSelect(q: Bits, n: nat, d: nat, j: nat)
    requires Fits(q, n) && d <= n && j < Pow2(d)
  {
    d == 0 || (SwapSelect(q, n, d - 1, j / 2) && Bit(q, n, d - 1, j / 2) == (j % 2 == 1))
  }

  /** Some candidate below node j of depth d is valid. */
  predicate SomeValid(valid: seq<bool>, n: nat, d: nat, j: nat)
    requires |valid| == Pow2(n) && d <= n && j < Pow2(d)
    decreases n - d
  {
    if d == n then valid[j]
    else SomeValid(valid, n, d + 1, 2 * j) || SomeValid(valid, n, d + 1, 2 * j + 1)
  }

  /** The pick unit's selection: a lone valid child wins, otherwise the bit decides. */
  predicate PickSelect(q: Bits, n: nat, valid: seq<bool>, d: nat, j: nat)
    requires Fits(q, n) && |valid| == Pow2(n) && d <= n && j < Pow2(d)
  {
    d == 0 ||
    (var p := j / 2;
     var a, b := SomeValid(valid, n, d, 2 * p), SomeValid(valid, n, d, 2 * p + 1);
     PickSelect(q, n, valid, d - 1, p) && (a || b) &&
     if j % 2 == 0 then (if a != b then a else !Bit(q, n, d - 1, p))
     else (if a != b then b else Bit(q, n, d - 1, p)))
  }

  // ---- The hardware computes what the software does ----------------------------------------

  lemma {:induction false} CarryIsAncestor(n: nat, x: nat, d: nat, j: nat)
    requires x < Pow2(n) && d <= n && j < Pow2(d)
    ensures Carry(OneHot(Pow2(n), x), true, n, d, j) <==> j == Ancestor(x, n, d)
    decreases n - d
  {
    if d < n {
      CarryIsAncestor(n, x, d + 1, 2 * j);
      CarryIsAncestor(n, x, d + 1, 2 * j + 1);
      AncestorStep(x, n, d);
    }
  }

  lemma {:induction false} NoCarry(w: seq<bool>, n: nat, d: nat, j: nat)
    requires |w| == Pow2(n) && d <= n && j < Pow2(d)
    ensures !Carry(w, false, n, d, j)
    decreases n - d
  {
    if d < n {
      NoCarry(w, n, d + 1, 2 * j);
      NoCarry(w, n, d + 1, 2 * j + 1);
    }
  }

  /** Clocking the hardware with the one-hot word of x updates x; without write enable it holds. */
  lemma ClockedIsUpdate(q: Bits, n: nat, x: nat)
    requires Fits(q, n) && x < Pow2(n)
    ensures Clocked(q, n, OneHot(Pow2(n), x), true) == Update(q, n, x)
    ensures forall w :: |w| == Pow2(n) ==> Clocked(q, n, w, false) == q
  {
    var w := OneHot(Pow2(n), x);
    forall p | 0 <= p < |q| ensures Clocked(q, n, w, true)[p] == Update(q, n, x)[p] {
      var d, j := NodeDepth(n, p), NodeIndex(n, p);
      CarryIsAncestor(n, x, d, j);
      CarryIsAncestor(n, x, d + 1, 2 * j);
      UpdatedBit(q, n, x, d, j);
    }
    forall w: seq<bool> | |w| == Pow2(n) ensures Clocked(q, n, w, false) == q {
      forall p | 0 <= p < |q| ensures Clocked(q, n, w, false)[p] == q[p] {
        NoCarry(w, n, NodeDepth(n, p), NodeIndex(n, p));
      }
    }
  }

  /** Exactly the picked leaf is selected by the swap tree. */
  lemma {:induction false} SwapSelectsPick(q: Bits, n: nat, d: nat, j: nat)
    requires Fits(q, n) && d <= n && j < Pow2(d)
    ensures SwapSelect(q, n, d, j) <==> j == Path(q, n, d)
  {
    if d > 0 { SwapSelectsPick(q, n, d - 1, j / 2); }
  }

  lemma {:induction false} ValidBelow(valid: seq<bool>, n: nat, d: nat, j: nat) returns (x: nat)
    requires |valid| == Pow2(n) && d <= n && j < Pow2(d) && SomeValid(valid, n, d, j)
    ensures x < Pow2(n) && valid[x] && Ancestor(x, n, d) == j
    decreases n - d
  {
    if d == n { x := j; }
    else {
      x := ValidBelow(valid, n, d + 1, if SomeValid(valid, n, d + 1, 2 * j) then 2 * j else 2 * j + 1);
      AncestorStep(x, n, d);
    }
  }

  lemma {:induction false} ValidAbove(valid: seq<bool>, n: nat, d: nat, x: nat)
    requires |valid| == Pow2(n) && d <= n && x < Pow2(n) && valid[x]
    ensures SomeValid(valid, n, d, Ancestor(x, n, d))
    decreases n - d
  {
    if d < n {
      ValidAbove(valid, n, d + 1, x);
      AncestorStep(x, n, d);
    }
  }

  lemma SiblingRank(q: Bits, n: nat, d: nat, j: nat)
    requires Fits(q, n) && d < n && j < Pow2(d + 1) && Away(q, n, d, j)
    ensures Sibling(j) < Pow2(d + 1) && Rank(q, n, d + 1, Sibling(j)) < Rank(q, n, d + 1, j)
  {
    SiblingBound(d, j);
    assert Sibling(j) / 2 == j / 2 && Sibling(j) % 2 != j % 2;
  }

  /** The side a bit points at comes first. */
  lemma PointedSideFirst(q: Bits, n: nat, d: nat, x: nat, v: nat)
    requires Fits(q, n) && d < n && x < Pow2(n) && v < Pow2(n)
    requires Ancestor(v, n, d + 1) == Sibling(Ancestor(x, n, d + 1)) && Away(q, n, d, Ancestor(x, n, d + 1))
    ensures Rank(q, n, n, v) < Rank(q, n, n, x)
  {
    SiblingRank(q, n, d, Ancestor(x, n, d + 1));
    AncestorsOrder(q, n, d + 1, n, v, x);
  }

  lemma SiblingBound(d: nat, j: nat)
    requires j < Pow2(d + 1)
    ensures Sibling(j) < Pow2(d + 1)
  {
    assert Sibling(j) / 2 == j / 2 < Pow2(d);
  }

  /** Below the ancestor of the first valid index, its own side is the one chosen: it is valid, and if
      the other side is valid too, the bit points at it. */
  lemma OwnSideWins(q: Bits, n: nat, valid: seq<bool>, x: nat, d: nat)
    requires Fits(q, n) && |valid| == Pow2(n) && d < n && x < Pow2(n) && FirstValid(q, n, valid, x)
    ensures var me := Ancestor(x, n, d + 1);
            && SomeValid(valid, n, d + 1, me)
            && Sibling(me) < Pow2(d + 1)
            && (SomeValid(valid, n, d + 1, Sibling(me)) ==> !Away(q, n, d, me))
  {
    var me := Ancestor(x, n, d + 1);
    SiblingBound(d, me);
    ValidAbove(valid, n, d + 1, x);
    if SomeValid(valid, n, d + 1, Sibling(me)) && Away(q, n, d, me) {
      var v := ValidBelow(valid, n, d + 1, Sibling(me));
      PointedSideFirst(q, n, d, x, v);
    }
  }

  /** At every depth exactly the ancestor of the first valid index is selected. */
  lemma {:induction false} SelectsAncestor(q: Bits, n: nat, valid: seq<bool>, x: nat, d: nat, j: nat)
    requires Fits(q, n) && |valid| == Pow2(n) && d <= n && j < Pow2(d)
    requires x < Pow2(n) && FirstValid(q, n, valid, x)
    ensures PickSelect(q, n, valid, d, j) <==> j == Ancestor(x, n, d)
  {
    if d > 0 {
      SelectsAncestor(q, n, valid, x, d - 1, j / 2);
      AncestorStep(x, n, d - 1);
      OwnSideWins(q, n, valid, x, d - 1);
    }
  }

  /** With at least one valid candidate the pick tree raises exactly the output of the first valid
      index in the replacement order; with none it raises no output. */
  lemma PickSelectsFirstValid(q: Bits, n: nat, valid: seq<bool>, x: nat)
    requires Fits(q, n) && |valid| == Pow2(n) && n > 0 && x < Pow2(n)
    ensures PickSelect(q, n, valid, n, x) <==> FirstValid(q, n, valid, x)
  {
    var first := LeastValid(q, n, valid, Pow2(n));
    if first == Pow2(n) {
      assert !valid[x];
      NothingSelected(q, n, valid, x);
    } else {
      SelectsAncestor(q, n, valid, first, n, x);
      SameRank(q, n, first, x);
    }
  }

  lemma NothingSelected(q: Bits, n: nat, valid: seq<bool>, x: nat)
    requires Fits(q, n) && |valid| == Pow2(n) && n > 0 && x < Pow2(n)
    requires forall v :: 0 <= v < Pow2(n) ==> !valid[v]
    ensures !PickSelect(q, n, valid, n, x)
  {
  }

  lemma SameRank(q: Bits, n: nat, x: nat, y: nat)
    requires Fits(q, n) && x < Pow2(n) && y < Pow2(n)
    ensures Rank(q, n, n, x) == Rank(q, n, n, y) ==> x == y
  {
    OrderOfRank(q, n, n, x);
    OrderOfRank(q, n, n, y);
  }

  /** A valid index below `m` of the least rank, or 2^n if there is none. */
  lemma {:induction false} LeastValid(q: Bits, n: nat, valid: seq<bool>, m: nat) returns (x: nat)
    requires Fits(q, n) && |valid| == Pow2(n) && m <= Pow2(n)
    ensures if x == Pow2(n) then forall v :: 0 <= v < m ==> !valid[v]
            else x < m && valid[x] && forall v :: 0 <= v < m && valid[v] ==> Rank(q, n, n, x) <= Rank(q, n, n, v)
  {
    if m == 0 { x := Pow2(n); }
    else {
      x := LeastValid(q, n, valid, m - 1);
      if valid[m - 1] && (x == Pow2(n) || Rank(q, n, n, m - 1) < Rank(q, n, n, x)) { x := m - 1; }
    }
  }

  // ---- Whole traces -------------------------------------------------------------------------------

  /** The write port of one cycle: the index to update, or none. */
  datatype Port = Hold | Write(x: nat)

  function HardwareTrace(n: nat, ports: seq<Port>): (q: Bits)
    requires forall k :: 0 <= k < |ports| && ports[k].Write? ==> ports[k].x < Pow2(n)
    ensures Fits(q, n)
  {
    if ports == [] then seq(Pow2(n) - 1, p => false)
    else
      var q := HardwareTrace(n, ports[..|ports| - 1]);
      match ports[|ports| - 1]
      case Hold => Clocked(q, n, seq(Pow2(n), i => false), false)
      case Write(x) => Clocked(q, n, OneHot(Pow2(n), x), true)
  }

  function SoftwareTrace(n: nat, ports: seq<Port>): (bits: Bits)
    requires forall k :: 0 <= k < |ports| && ports[k].Write? ==> ports[k].x < Pow2(n)
    ensures Fits(bits, n)
  {
    if ports == [] then seq(Pow2(n) - 1, p => false)
    else
      var bits := SoftwareTrace(n, ports[..|ports| - 1]);
      match ports[|ports| - 1]
      case Hold => bits
      case Write(x) => Update(bits, n, x)
  }

  /** From reset, for every trace of updates, the flip-flops equal the emulated bits and the one-hot
      swap output is the emulated pick. */
  lemma {:induction false} TracesAgree(n: nat, ports: seq<Port>, x: nat)
    requires forall k :: 0 <= k < |ports| && ports[k].Write? ==> ports[k].x < Pow2(n)
    requires x < Pow2(n)
    ensures HardwareTrace(n, ports) == SoftwareTrace(n, ports)
    ensures SwapSelect(HardwareTrace(n, ports), n, n, x) <==> x == Pick(SoftwareTrace(n, ports), n)
  {
    if ports != [] {
      var front, last := ports[..|ports| - 1], ports[|ports| - 1];
      TracesAgree(n, front, x);
      ClockedIsUpdate(HardwareTrace(n, front), n, if last.Write? then last.x else x);
    }
    SwapSelectsPick(HardwareTrace(n, ports), n, n, x);
  }
}
