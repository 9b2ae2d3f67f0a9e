/** The emulated tree pseudo-LRU: bits updated in place, the pick of the swap variant, and the whole
    replacement order of the pick variant, expanded in place from the root. */
module PseudoLrus {
  import opened Powers
  import opened LruTree
  import opened LruOrder
  import opened LruHardware

  /** Makes every node on the path of `index` point away from it. */
  method UpdateBits(lruBits: array<bool>, n: nat, index: nat)
    requires Fits(lruBits[..], n) && index < Pow2(n)
    modifies lruBits
    ensures Fits(lruBits[..], n) && lruBits[..] == Update(old(lruBits[..]), n, index)
  {
    ghost var before := lruBits[..];
    for i := 0 to n
      invariant Fits(lruBits[..], n) && lruBits[..] == Updating(before, n, index, i)
    {
      ShrBound(index, n, i + 1);
      PositionFits(n, n - i - 1, Shr(index, i + 1));
      var pbase := Pow2(n - i - 1) - 1;
      lruBits[pbase + Shr(index, i + 1)] := Shr(index, i) % 2 == 0;
    }
  }

  class PseudoLRUSwap {
    const n: nat
    const lruBits: array<bool>
    var pickedIndex: int
    var updateIndex: int

    ghost predicate Valid()
      reads this, lruBits
    {
      Fits(lruBits[..], n) && updateIndex < Pow2(n)
    }

    constructor (n: nat)
      ensures Valid() && this.n == n && fresh(lruBits)
      ensures lruBits[..] == SoftwareTrace(n, []) && pickedIndex == Pick(lruBits[..], n) && updateIndex == -1
    {
      this.n := n;
      lruBits := new bool[Pow2(n) - 1](i => false);
      pickedIndex, updateIndex := -1, -1;
      new;
      Eval();
    }

    method GetPicked() returns (r: int)
      ensures r == pickedIndex
    {
      r := pickedIndex;
    }

    method Update(index: int)
      requires Valid() && index < Pow2(n)
      modifies this`updateIndex
      ensures Valid() && updateIndex == index
    {
      updateIndex := index;
    }

    /** Applies the staged update and follows the bits to the next pick. */
    method Eval()
      requires Valid()
      modifies this`pickedIndex, this`updateIndex, lruBits
      ensures Valid() && updateIndex == (if old(updateIndex) >= 0 then -1 else old(updateIndex))
      ensures lruBits[..] == if old(updateIndex) >= 0 then LruTree.Update(old(lruBits[..]), n, old(updateIndex))
                             else old(lruBits[..])
      ensures pickedIndex == Pick(lruBits[..], n)
    {
      if updateIndex >= 0 {
        UpdateBits(lruBits, n, updateIndex);
        updateIndex := -1;
      }
      pickedIndex := Follow();
    }

    /** The leaf the bits point at. */
    method Follow() returns (leaf: int)
      requires Valid()
      ensures leaf == Pick(lruBits[..], n)
    {
      ghost var bits, j := lruBits[..], 0;
      var picked := 0;
      for i := 0 to n
        invariant lruBits[..] == bits && j == Path(bits, n, i)
        invariant picked == Pow2(i) - 1 + j
      {
        FollowStep(bits, n, i);
        var nbase := Pow2(i + 1) - 1;
        var pbase := Pow2(i) - 1;
        var lru := if lruBits[picked] then 1 else 0;
        picked := nbase + 2 * (picked - pbase) + lru;
        j := Path(bits, n, i + 1);
      }
      leaf := picked - (Pow2(n) - 1);
    }
  }

  lemma FollowStep(bits: Bits, n: nat, i: nat)
    requires Fits(bits, n) && i < n
    ensures var j := Path(bits, n, i);
            && Pow2(i) - 1 + j < |bits|
            && Path(bits, n, i + 1) == 2 * j + (if bits[Pow2(i) - 1 + j] then 1 else 0)
  {
    PositionFits(n, i, Path(bits, n, i));
  }

  /** The order `next` of a depth is the order of the depth above it, every node replaced by its two
      children, the one its bit points at first. */
  ghost predicate Expands(bits: Bits, psize: nat, order: seq<int>, next: seq<int>) {
    && |order| == psize && |next| == 2 * psize
    && forall k :: 0 <= k < psize ==>
         && 0 <= order[k] && psize - 1 + order[k] < |bits|
         && var lru := bits[psize - 1 + order[k]];
         && next[2 * k] == 2 * order[k] + (if lru then 1 else 0)
         && next[2 * k + 1] == 2 * order[k] + (if lru then 0 else 1)
  }

  /** Ranks below k still hold the order to expand, those from 2k on the expanded one. */
  ghost predicate Expanding(sub: seq<int>, order: seq<int>, next: seq<int>, k: nat) {
    && k <= |order| && |next| == 2 * |order| <= |sub|
    && (forall r :: 0 <= r < k ==> sub[r] == order[r])
    && (forall r :: 2 * k <= r < |next| ==> sub[r] == next[r])
  }

  /** Replacing rank k by its two children, and what those are. */
  lemma ExpandStep(bits: Bits, psize: nat, sub: seq<int>, order: seq<int>, next: seq<int>, k: nat)
    requires Expands(bits, psize, order, next) && k < psize && Expanding(sub, order, next, k + 1)
    ensures 0 <= sub[k] && psize - 1 + sub[k] < |bits|
    ensures var lru := bits[psize - 1 + sub[k]];
            && next[2 * k] == 2 * sub[k] + (if lru then 1 else 0)
            && next[2 * k + 1] == 2 * sub[k] + (if lru then 0 else 1)
    ensures Expanding(sub[2 * k + 1 := next[2 * k + 1]][2 * k := next[2 * k]], order, next, k)
  {
  }

  /** The first position below `limit` that holds `index`, or `limit`. */
  function PositionBelow(sub: seq<int>, limit: nat, index: int): (r: nat)
    requires limit <= |sub|
    ensures r <= limit && (r < limit ==> sub[r] == index) && forall i :: 0 <= i < r ==> sub[i] != index
    decreases limit
  {
    if limit == 0 then 0
    else
      var r := PositionBelow(sub, limit - 1, index);
      if r < limit - 1 || sub[limit - 1] == index then r else limit
  }

  class PseudoLRUPick {
    const n: nat
    const lruBits: array<bool>
    const lruSub: array<int>
    var updateIndex: int
    var subPickedIndex: int

    /** The order array is the replacement order of the bits. */
    ghost predicate Valid()
      reads this, lruBits, lruSub
    {
      && n > 0 && Fits(lruBits[..], n) && updateIndex < Pow2(n)
      && lruSub.Length == Pow2(n) && 0 <= subPickedIndex <= Pow2(n)
      && forall r :: 0 <= r < Pow2(n) ==> lruSub[r] == Order(lruBits[..], n, n, r)
    }

    constructor (n: nat)
      requires n > 0
      ensures Valid() && this.n == n && fresh(lruBits) && fresh(lruSub)
      ensures lruBits[..] == SoftwareTrace(n, []) && subPickedIndex == Pow2(n) && updateIndex == -1
    {
      this.n := n;
      lruBits := new bool[Pow2(n) - 1](i => false);
      lruSub := new int[Pow2(n)](i => -1);
      updateIndex, subPickedIndex := -1, -1;
      new;
      Refresh();
    }

    /** The first valid index of the replacement order; 0 when no valid index was set. */
    method GetPicked() returns (r: int)
      requires Valid()
      ensures r == if subPickedIndex < Pow2(n) then Order(lruBits[..], n, n, subPickedIndex) else 0
    {
      if subPickedIndex < lruSub.Length { return lruSub[subPickedIndex]; }
      return 0;
    }

    method Update(index: int)
      requires Valid() && index < Pow2(n)
      modifies this`updateIndex
      ensures Valid() && updateIndex == index
    {
      updateIndex := index;
    }

    /** Moves the pick up to `index` if that comes earlier in the order. */
    method SetValid(index: int)
      requires Valid()
      modifies this`subPickedIndex
      ensures Valid()
      ensures subPickedIndex == PositionBelow(lruSub[..], old(subPickedIndex), index)
    {
      for i := 0 to subPickedIndex
        invariant subPickedIndex == old(subPickedIndex)
        invariant forall j :: 0 <= j < i ==> lruSub[j] != index
      {
        if lruSub[i] == index {
          subPickedIndex := i;
          FirstPosition(lruSub[..], old(subPickedIndex), index, i);
          return;
        }
      }
      NoPosition(lruSub[..], subPickedIndex, index);
    }

    method ResetValid()
      requires Valid()
      modifies this`subPickedIndex
      ensures Valid() && subPickedIndex == Pow2(n)
    {
      subPickedIndex := lruSub.Length;
    }

    /** Applies the staged update and expands the replacement order; no index is valid afterwards. */
    method Eval()
      requires Valid()
      modifies this, lruBits, lruSub
      ensures Valid() && subPickedIndex == Pow2(n)
      ensures updateIndex == if old(updateIndex) >= 0 then -1 else old(updateIndex)
      ensures lruBits[..] == if old(updateIndex) >= 0 then LruTree.Update(old(lruBits[..]), n, old(updateIndex))
                             else old(lruBits[..])
    {
      if updateIndex >= 0 {
        UpdateBits(lruBits, n, updateIndex);
        updateIndex := -1;
      }
      Refresh();
    }

    /** Expands the order of depth i, `psize` ranks long, to that of depth i+1 in place, from the highest
        rank down: the two children of rank k go to ranks 2k and 2k+1. */
    method Expand(psize: nat, ghost order: seq<int>, ghost next: seq<int>)
      requires Expands(lruBits[..], psize, order, next) && 2 * psize <= lruSub.Length
      requires forall k :: 0 <= k < psize ==> lruSub[k] == order[k]
      modifies lruSub
      ensures forall r :: 0 <= r < 2 * psize ==> lruSub[r] == next[r]
    {
      ghost var bits := lruBits[..];
      for j := 0 to psize
        invariant lruBits[..] == bits
        invariant Expanding(lruSub[..], order, next, psize - j)
      {
        ghost var before := lruSub[..];
        var k := psize - j - 1;
        ExpandStep(bits, psize, before, order, next, k);
        var lru := lruBits[psize - 1 + lruSub[k]];
        if !lru {
          lruSub[2 * k + 1] := 2 * lruSub[k] + 1;
          lruSub[2 * k] := 2 * lruSub[k];
        } else {
          lruSub[2 * k + 1] := 2 * lruSub[k];
          lruSub[2 * k] := 2 * lruSub[k] + 1;
        }
        assert lruSub[2 * k + 1] == next[2 * k + 1] && lruSub[2 * k] == next[2 * k];
        assert lruSub[..] == before[2 * k + 1 := next[2 * k + 1]][2 * k := next[2 * k]];
      }
    }

    /** The array starts with the replacement order of depth d. */
    ghost predicate Ordered(d: nat)
      requires Fits(lruBits[..], n) && d <= n
      reads this, lruBits, lruSub
    {
      && Pow2(d) <= lruSub.Length
      && forall r :: 0 <= r < Pow2(d) ==> lruSub[r] == Order(lruBits[..], n, d, r)
    }

    method Refresh()
      requires n > 0 && Fits(lruBits[..], n) && lruSub.Length == Pow2(n) && updateIndex < Pow2(n)
      modifies lruSub, this`subPickedIndex
      ensures Valid() && subPickedIndex == Pow2(n)
    {
      OrderRoot();
      for i := 1 to n
        invariant Fits(lruBits[..], n) && Ordered(i)
      {
        OrderLevel(i);
      }
      subPickedIndex := lruSub.Length;
    }

    /** The order of depth 1: the child the root points at comes first. */
    method OrderRoot()
      requires n > 0 && Fits(lruBits[..], n) && lruSub.Length == Pow2(n)
      modifies lruSub
      ensures Ordered(1)
    {
      Pow2Monotone(1, n);
      FirstOrder(lruBits[..], n);
      lruSub[0] := if lruBits[0] then 1 else 0;
      lruSub[1] := if lruBits[0] then 0 else 1;
      assert OrderArray(lruBits[..], n, 1)[0] == lruSub[0] && OrderArray(lruBits[..], n, 1)[1] == lruSub[1];
    }

    method OrderLevel(i: nat)
      requires i < n && Fits(lruBits[..], n) && lruSub.Length == Pow2(n) && Ordered(i)
      modifies lruSub
      ensures Ordered(i + 1)
    {
      Pow2Monotone(i + 1, n);
      OrdersExpand(lruBits[..], n, i);
      Expand(Pow2(i), OrderArray(lruBits[..], n, i), OrderArray(lruBits[..], n, i + 1));
    }
  }

  /** The two children of the node at rank k follow each other, the one its bit points at first. */
  lemma Children(bits: Bits, n: nat, i: nat, k: nat)
    requires Fits(bits, n) && i < n && k < Pow2(i)
    ensures var node := Order(bits, n, i, k);
            && Order(bits, n, i + 1, 2 * k) == 2 * node + (if Bit(bits, n, i, node) then 1 else 0)
            && Order(bits, n, i + 1, 2 * k + 1) == 2 * node + (if Bit(bits, n, i, node) then 0 else 1)
  {
    assert (2 * k) / 2 == k && (2 * k + 1) / 2 == k;
  }

  lemma FirstOrder(bits: Bits, n: nat)
    requires Fits(bits, n) && n > 0
    ensures |bits| > 0 && OrderArray(bits, n, 1) == if bits[0] then [1, 0] else [0, 1]
  {
    PositionFits(n, 0, 0);
    Children(bits, n, 0, 0);
  }

  /** The expansion of the order of depth i, in the form the in-place loop computes it. */
  lemma OrdersExpand(bits: Bits, n: nat, i: nat)
    requires Fits(bits, n) && i < n
    ensures var order, next := OrderArray(bits, n, i), OrderArray(bits, n, i + 1);
            Expands(bits, Pow2(i), order, next)
  {
    var order, next := OrderArray(bits, n, i), OrderArray(bits, n, i + 1);
    forall k | 0 <= k < Pow2(i)
      ensures 0 <= order[k] && Pow2(i) - 1 + order[k] < |bits|
      ensures var lru := bits[Pow2(i) - 1 + order[k]];
              && next[2 * k] == 2 * order[k] + (if lru then 1 else 0)
              && next[2 * k + 1] == 2 * order[k] + (if lru then 0 else 1)
    {
      var node := Order(bits, n, i, k);
      PositionFits(n, i, node);
      Children(bits, n, i, k);
      assert order[k] == node && bits[Pow2(i) - 1 + node] == Bit(bits, n, i, node);
      assert next[2 * k] == Order(bits, n, i + 1, 2 * k);
      assert next[2 * k + 1] == Order(bits, n, i + 1, 2 * k + 1);
    }
  }

  lemma {:induction false} FirstPosition(sub: seq<int>, limit: nat, index: int, i: nat)
    requires i < limit <= |sub| && sub[i] == index && forall j :: 0 <= j < i ==> sub[j] != index
    ensures PositionBelow(sub, limit, index) == i
  {
  }

  lemma NoPosition(sub: seq<int>, limit: nat, index: int)
    requires limit <= |sub| && forall j :: 0 <= j < limit ==> sub[j] != index
    ensures PositionBelow(sub, limit, index) == limit
  {
  }

  // ---- Choosing among valid candidates ------------------------------------------------------

  /** The replacement order of depth d as an array. */
  function OrderArray(bits: Bits, n: nat, d: nat): (sub: seq<int>)
    requires Fits(bits, n) && d <= n
    ensures |sub| == Pow2(d)
  {
    seq(Pow2(d), r requires 0 <= r < Pow2(d) => Order(bits, n, d, r))
  }

  /** Where the pick stands after marking the given indices valid, one call after the other. */
  function PickedAfter(sub: seq<int>, calls: seq<int>): (r: nat)
    ensures r <= |sub|
  {
    if calls == [] then |sub|
    else PositionBelow(sub, PickedAfter(sub, calls[..|calls| - 1]), calls[|calls| - 1])
  }

  /** The candidates a sequence of calls marks valid. */
  ghost function ValidSet(size: nat, calls: seq<int>): (valid: seq<bool>)
    ensures |valid| == size
  {
    seq(size, i => i in calls)
  }

  lemma RankOfOrderArray(bits: Bits, n: nat, limit: nat, index: int)
    requires Fits(bits, n) && limit <= Pow2(n)
    ensures PositionBelow(OrderArray(bits, n, n), limit, index) ==
            if 0 <= index < Pow2(n) && Rank(bits, n, n, index) < limit then Rank(bits, n, n, index) else limit
  {
    var sub := OrderArray(bits, n, n);
    var r := PositionBelow(sub, limit, index);
    if r < limit { RankOfOrder(bits, n, n, r); }
    if 0 <= index < Pow2(n) { OrderOfRank(bits, n, n, index); }
  }

  /** The pick stands at the least rank of the indices marked valid. */
  lemma {:induction false} PickedIsLeast(bits: Bits, n: nat, calls: seq<int>)
    requires Fits(bits, n)
    ensures var r := PickedAfter(OrderArray(bits, n, n), calls);
            && (forall v :: v in calls && 0 <= v < Pow2(n) ==> r <= Rank(bits, n, n, v))
            && (r < Pow2(n) ==> Order(bits, n, n, r) in calls)
  {
    if calls != [] {
      var front, last := calls[..|calls| - 1], calls[|calls| - 1];
      PickedIsLeast(bits, n, front);
      RankOfOrderArray(bits, n, PickedAfter(OrderArray(bits, n, n), front), last);
      assert forall v :: v in calls <==> v in front || v == last;
      if 0 <= last < Pow2(n) { OrderOfRank(bits, n, n, last); }
    }
  }

  /** After any nonempty set of valid indices, marked in any order, the index picked is the first valid
      one in the replacement order, which is the one the hardware pick tree selects. */
  lemma PickMatchesHardware(bits: Bits, n: nat, calls: seq<int>, x: nat)
    requires Fits(bits, n) && n > 0 && x < Pow2(n)
    requires calls != [] && forall v :: v in calls ==> 0 <= v < Pow2(n)
    ensures var r := PickedAfter(OrderArray(bits, n, n), calls);
            && r < Pow2(n)
            && FirstValid(bits, n, ValidSet(Pow2(n), calls), Order(bits, n, n, r))
            && (PickSelect(bits, n, ValidSet(Pow2(n), calls), n, x) <==> x == Order(bits, n, n, r))
  {
    var r := PickedAfter(OrderArray(bits, n, n), calls);
    var valid := ValidSet(Pow2(n), calls);
    PickedIsLeast(bits, n, calls);
    assert calls[0] in calls && r <= Rank(bits, n, n, calls[0]);
    RankOfOrder(bits, n, n, r);
    var first := Order(bits, n, n, r);
    forall v | 0 <= v < Pow2(n) && valid[v] ensures Rank(bits, n, n, first) <= Rank(bits, n, n, v) {}
    PickSelectsFirstValid(bits, n, valid, x);
    SameRank(bits, n, first, x);
  }
}
