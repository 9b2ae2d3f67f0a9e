/** Counting the entries of an alias table that may not be handed out. */
module Occupancy {
  import opened AliasEntries

  /** The entries below n that may not be handed out. */
  ghost function KeptBelow(es: seq<Entry>, n: nat): set<int>
    requires n <= |es|
  {
    set i | 0 <= i < n && es[i].nra
  }

  ghost function Kept(es: seq<Entry>): set<int> {
    KeptBelow(es, |es|)
  }

  lemma {:induction false} ImageBound(f: int -> int, lo: int, hi: int)
    requires lo <= hi
    ensures |set k | lo <= k < hi :: f(k)| <= hi - lo
    decreases hi - lo
  {
    if lo == hi {
      assert (set k | lo <= k < hi :: f(k)) == {};
    } else {
      ImageBound(f, lo, hi - 1);
      assert (set k | lo <= k < hi :: f(k)) == (set k | lo <= k < hi - 1 :: f(k)) + {f(hi - 1)};
    }
  }

  lemma SubsetBound(a: set<int>, b: set<int>)
    requires a <= b
    ensures |a| <= |b|
  {
    assert b == a + (b - a);
  }

  lemma {:induction false} KeptWhenFull(es: seq<Entry>, n: nat)
    requires n <= |es| && forall j :: 0 <= j < n ==> es[j].nra
    ensures |KeptBelow(es, n)| == n
  {
    if n > 0 {
      KeptWhenFull(es, n - 1);
      assert KeptBelow(es, n) == KeptBelow(es, n - 1) + {n - 1};
    }
  }

  /** A table whose kept entries all lie among fewer numbers than it has entries is not full. */
  lemma RoomLeft(es: seq<Entry>, among: set<int>)
    requires Kept(es) <= among && |among| < |es|
    ensures exists i :: 0 <= i < |es| && !es[i].nra
  {
    SubsetBound(Kept(es), among);
    if forall i :: 0 <= i < |es| ==> es[i].nra {
      KeptWhenFull(es, |es|);
    }
  }
}
