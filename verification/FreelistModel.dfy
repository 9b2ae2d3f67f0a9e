/** The free-list reference model as it runs: parallel arrays of banks, groups and states, and of the next
    value of each, updated in loops. */
module FreelistModels {
  import opened Wrappers
  import opened Freelists

  class FreelistModel {
    const banks: array<seq<int>>
    const fgrs: array<int>
    const states: array<State>
    const nextBanks: array<int>
    const nextFgrs: array<int>
    const nextStates: array<State>

    ghost predicate Valid() {
      && fgrs.Length == banks.Length && states.Length == banks.Length
      && nextBanks.Length == banks.Length && nextFgrs.Length == banks.Length && nextStates.Length == banks.Length
      && fgrs != nextBanks && fgrs != nextFgrs && nextBanks != nextFgrs && states != nextStates
    }

    ghost function Model(): (bs: seq<Bank>)
      requires Valid()
      reads banks, fgrs, states, nextBanks, nextFgrs, nextStates
      ensures |bs| == banks.Length
    {
      seq(banks.Length, i requires 0 <= i < banks.Length
            reads banks, fgrs, states, nextBanks, nextFgrs, nextStates =>
        Bank(banks[i], fgrs[i], states[i], nextBanks[i], nextFgrs[i], nextStates[i]))
    }

    constructor (size: nat)
      ensures Valid() && Model() == Reset(size).bs
    {
      banks := new seq<int>[size](i => []);
      fgrs := new int[size](i => -1);
      states := new State[size](i => Invalid);
      nextBanks := new int[size](i => NEXT_NOP);
      nextFgrs := new int[size](i => -1);
      nextStates := new State[size](i => Invalid);
      new;
      assert Model() == Reset(size).bs;
    }

    method Push(fgr: int, value: int) returns (ok: bool)
      requires Valid()
      modifies nextBanks, nextFgrs, nextStates
      ensures (Model(), ok) == Freelists.Push(old(Model()), fgr, value)
    {
      ghost var bs := Model();
      for i := 0 to banks.Length
        invariant Model() == bs && PushTarget(bs, fgr, 0) == PushTarget(bs, fgr, i)
      {
        assert bs[i].state == states[i];
        if states[i] == Invalid {
          nextFgrs[i] := fgr;
          nextBanks[i] := value;
          nextStates[i] := Live;
          assert Model() == Freelists.Push(bs, fgr, value).0;
          return true;
        } else if states[i] == Live {
          if fgrs[i] == fgr && |banks[i]| < CAPACITY {
            nextBanks[i] := value;
            assert Model() == Freelists.Push(bs, fgr, value).0;
            return true;
          }
        }
      }
      return false;
    }

    /** Returns how many banks were abandoned. */
    method Abandon(fgr: int) returns (r: nat)
      requires Valid()
      modifies nextStates
      ensures Model() == Freelists.Abandon(old(Model()), fgr)
      ensures r == |OwnedBelow(old(Model()), fgr, banks.Length)|
    {
      ghost var bs := Model();
      r := 0;
      for i := 0 to banks.Length
        invariant r == |OwnedBelow(bs, fgr, i)|
        invariant forall j :: 0 <= j < banks.Length ==>
                    Model()[j] == if j < i then Freelists.Abandon(bs, fgr)[j] else bs[j]
      {
        assert bs[i].state == states[i] && bs[i].fgr == fgrs[i];
        OwnedNext(bs, fgr, i);
        if states[i] == Live && fgrs[i] == fgr {
          nextStates[i] := Abandoned;
          r := r + 1;
        }
      }
      assert Model() == Freelists.Abandon(bs, fgr);
    }

    method Commit(fgr: int) returns (r: nat)
      requires Valid()
      modifies nextBanks, nextStates
      ensures Model() == Freelists.Commit(old(Model()), fgr)
      ensures r == |OwnedBelow(old(Model()), fgr, banks.Length)|
    {
      ghost var bs := Model();
      r := 0;
      for i := 0 to banks.Length
        invariant r == |OwnedBelow(bs, fgr, i)|
        invariant forall j :: 0 <= j < banks.Length ==>
                    Model()[j] == if j < i then Freelists.Commit(bs, fgr)[j] else bs[j]
      {
        assert bs[i].state == states[i] && bs[i].fgr == fgrs[i];
        OwnedNext(bs, fgr, i);
        if states[i] == Live && fgrs[i] == fgr {
          nextBanks[i] := NEXT_CLEAR;
          nextStates[i] := Invalid;
          r := r + 1;
        }
      }
      assert Model() == Freelists.Commit(bs, fgr);
    }

    method Pop() returns (prf: Option<int>)
      requires Valid()
      modifies nextBanks
      ensures (Model(), prf) == Freelists.Pop(old(Model()))
    {
      ghost var bs := Model();
      for i := 0 to banks.Length
        invariant Model() == bs && PopTarget(bs, 0) == PopTarget(bs, i)
      {
        assert bs[i].state == states[i] && bs[i].words == banks[i];
        if states[i] == Abandoned && banks[i] != [] {
          prf := Some(banks[i][|banks[i]| - 1]);
          nextBanks[i] := NEXT_POP;
          assert Model() == Freelists.Pop(bs).0;
          return;
        }
      }
      return None;
    }

    method Eval()
      requires Valid()
      modifies banks, fgrs, states, nextBanks, nextFgrs, nextStates
      ensures Model() == Freelists.Eval(old(Model()))
    {
      ghost var bs := Model();
      Drain();
      Latch();
      ResetNext();
      assert Model() == Freelists.Eval(bs);
    }

    /** An abandoned bank that has run empty is to become invalid. */
    method Drain()
      requires Valid()
      modifies nextStates
      ensures forall j :: 0 <= j < banks.Length ==> Model()[j] == Drained(old(Model())[j])
    {
      ghost var bs := Model();
      for i := 0 to banks.Length
        invariant forall j :: 0 <= j < banks.Length ==> Model()[j] == if j < i then Drained(bs[j]) else bs[j]
      {
        assert Model()[i] == bs[i];
        if states[i] == Abandoned && banks[i] == [] {
          nextStates[i] := Invalid;
        }
      }
    }

    /** Every bank takes its next values over. */
    method Latch()
      requires Valid()
      modifies banks, fgrs, states
      ensures forall j :: 0 <= j < banks.Length ==> Model()[j] == Latched(old(Model())[j])
    {
      ghost var bs := Model();
      for i := 0 to banks.Length
        invariant forall j :: 0 <= j < banks.Length ==> Model()[j] == if j < i then Latched(bs[j]) else bs[j]
      {
        assert Model()[i] == bs[i];
        fgrs[i] := nextFgrs[i];
        states[i] := nextStates[i];
        if nextBanks[i] >= 0 {
          banks[i] := [nextBanks[i]] + banks[i];
        } else if nextBanks[i] == NEXT_POP {
          banks[i] := if banks[i] == [] then [] else banks[i][..|banks[i]| - 1];
        } else if nextBanks[i] == NEXT_CLEAR {
          banks[i] := [];
        }
      }
    }

    /** Nothing stays staged. */
    method ResetNext()
      requires Valid()
      modifies nextBanks, nextFgrs, nextStates
      ensures forall j :: 0 <= j < banks.Length ==>
                Model()[j] == old(Model())[j].(nextBank := NEXT_NOP, nextFgr := old(Model())[j].fgr,
                                               nextState := old(Model())[j].state)
    {
      ghost var bs := Model();
      for i := 0 to banks.Length
        invariant forall j :: 0 <= j < banks.Length ==>
                    Model()[j] == if j < i then bs[j].(nextBank := NEXT_NOP, nextFgr := bs[j].fgr,
                                                       nextState := bs[j].state)
                                  else bs[j]
      {
        assert Model()[i] == bs[i];
        nextFgrs[i] := fgrs[i];
        nextStates[i] := states[i];
        nextBanks[i] := NEXT_NOP;
      }
    }
  }

  /** A bank whose next state tells that it has been drained. */
  function Drained(b: Bank): Bank {
    if b.state.Abandoned? && b.words == [] then b.(nextState := Invalid) else b
  }

  /** The banks below n that belong to the group. */
  ghost function OwnedBelow(bs: seq<Bank>, fgr: int, n: nat): set<int>
    requires n <= |bs|
  {
    set i | 0 <= i < n && Owned(bs[i], fgr)
  }

  lemma OwnedNext(bs: seq<Bank>, fgr: int, n: nat)
    requires n < |bs|
    ensures |OwnedBelow(bs, fgr, n + 1)| == |OwnedBelow(bs, fgr, n)| + if Owned(bs[n], fgr) then 1 else 0
  {
    assert OwnedBelow(bs, fgr, n + 1) == OwnedBelow(bs, fgr, n) + if Owned(bs[n], fgr) then {n} else {};
  }

  /** A bank between taking its next values over and resetting them. */
  function Latched(b: Bank): Bank {
    b.(words := NextWords(b), fgr := b.nextFgr, state := b.nextState)
  }
}
