/** The scoreboard: one busy bit for every physical register, and checkpoints of all of them.
    Calls during a cycle only stage their effect; `Eval` applies it. */
module Scoreboards {
  import opened Wrappers

  /** What a cycle has staged for one register. `land` is only ever set together with `busy`. */
  datatype BusyMod = BusyMod(busy: Option<bool>, land: bool, takeOff: bool)

  const NO_MOD := BusyMod(None, false, false)

  /** The value of a scoreboard; -1 in `alloc` or `restore` means that nothing is requested. */
  datatype Board = Board(busy: seq<bool>, mods: seq<BusyMod>, cks: seq<seq<bool>>, alloc: int, restore: int) {

    ghost predicate Valid() {
      && |mods| == |busy|
      && (forall k :: 0 <= k < |cks| ==> |cks[k]| == |busy|)
      && -1 <= alloc < |cks|
      && -1 <= restore < |cks|
    }

    /** Nothing is staged: the state that `ResetInput` leaves. */
    ghost predicate Idle() {
      && alloc == -1 && restore == -1
      && forall i :: 0 <= i < |mods| ==> mods[i] == NO_MOD
    }

    function Land(i: nat): Board
      requires i < |mods|
    {
      this.(mods := mods[i := mods[i].(busy := Some(false), land := true)])
    }

    function TakeOff(i: nat): Board
      requires i < |mods|
    {
      this.(mods := mods[i := mods[i].(busy := Some(true), takeOff := true)])
    }

    /** The checkpoints after the clock edge, before any restore: a fresh snapshot if one was
        requested, and every landing written through to all of them. */
    ghost function NextCheckpoints(): (r: seq<seq<bool>>)
      requires Valid()
      ensures |r| == |cks| && forall k :: 0 <= k < |r| ==> |r[k]| == |busy|
      ensures forall k, i :: 0 <= k < |r| && 0 <= i < |busy| ==>
                r[k][i] == ((if k == alloc then busy[i] else cks[k][i])
                            && !(mods[i].busy.Some? && mods[i].land))
    {
      seq(|cks|, k requires 0 <= k < |cks| =>
        seq(|busy|, i requires 0 <= i < |busy| =>
          (if k == alloc then busy[i] else cks[k][i]) && !(mods[i].busy.Some? && mods[i].land)))
    }

    /** The state after the clock edge. */
    ghost function Next(): (r: Board)
      requires Valid()
      ensures r.Valid() && r.Idle() && |r.busy| == |busy| && |r.cks| == |cks|
    {
      var cks' := NextCheckpoints();
      var busy' := if restore != -1 then cks'[restore]
                   else seq(|busy|, i requires 0 <= i < |busy| => mods[i].busy.GetOr(busy[i]));
      Board(busy', seq(|busy|, i => NO_MOD), cks', -1, -1)
    }
  }

  /** A reset scoreboard: nothing busy, nothing staged. */
  ghost function Reset(size: nat, checkpoints: nat): (r: Board)
    ensures r.Valid() && r.Idle()
  {
    var none := seq(size, i => false);
    Board(none, seq(size, i => NO_MOD), seq(checkpoints, k => none), -1, -1)
  }

  /** A table of checkpoints as a sequence of rows. */
  ghost function Rows(checkpoints: array2<bool>): (r: seq<seq<bool>>)
    reads checkpoints
    ensures |r| == checkpoints.Length0
    ensures forall k :: 0 <= k < |r| ==> |r[k]| == checkpoints.Length1
    ensures forall k, i :: 0 <= k < |r| && 0 <= i < checkpoints.Length1 ==> r[k][i] == checkpoints[k, i]
  {
    seq(checkpoints.Length0, k requires 0 <= k < checkpoints.Length0 reads checkpoints =>
      seq(checkpoints.Length1, i requires 0 <= i < checkpoints.Length1 reads checkpoints => checkpoints[k, i]))
  }

  /** Checkpoint grids are equal when they agree at every position. */
  lemma GridEquality(a: seq<seq<bool>>, b: seq<seq<bool>>)
    requires |a| == |b|
    requires forall k :: 0 <= k < |a| ==> |a[k]| == |b[k]|
    requires forall k, i :: 0 <= k < |a| && 0 <= i < |a[k]| ==> a[k][i] == b[k][i]
    ensures a == b
  {
    forall k | 0 <= k < |a| ensures a[k] == b[k] {}
  }

  class Scoreboard {
    const busy: array<bool>
    const modification: array<BusyMod>
    const checkpoints: array2<bool>
    var checkpointAllocate: int
    var checkpointRestore: int

    ghost predicate Valid()
      reads this
    {
      && modification.Length == busy.Length
      && checkpoints.Length1 == busy.Length
      && -1 <= checkpointAllocate < checkpoints.Length0
      && -1 <= checkpointRestore < checkpoints.Length0
    }

    ghost function Model(): (r: Board)
      requires Valid()
      reads this, busy, modification, checkpoints
      ensures r.Valid()
    {
      Board(busy[..], modification[..], Rows(checkpoints), checkpointAllocate, checkpointRestore)
    }

    /** Every landing and take-off flag starts cleared, as `ResetInput` leaves them. */
    constructor (size: nat, checkpointCount: nat)
      ensures Valid() && Model() == Reset(size, checkpointCount)
      ensures fresh(busy) && fresh(modification) && fresh(checkpoints)
    {
      busy := new bool[size](i => false);
      modification := new BusyMod[size](i => NO_MOD);
      checkpoints := new bool[checkpointCount, size]((k, i) => false);
      checkpointAllocate, checkpointRestore := -1, -1;
      new;
      GridEquality(Rows(checkpoints), Reset(size, checkpointCount).cks);
    }

    method IsBusy(index: nat) returns (r: bool)
      requires index < busy.Length
      ensures r == busy[index]
    {
      r := busy[index];
    }

    method Land(index: nat)
      requires Valid() && index < busy.Length
      modifies modification
      ensures Valid() && Model() == old(Model()).Land(index)
    {
      modification[index] := modification[index].(busy := Some(false), land := true);
      assert Rows(checkpoints) == old(Rows(checkpoints));
    }

    method TakeOff(index: nat)
      requires Valid() && index < busy.Length
      modifies modification
      ensures Valid() && Model() == old(Model()).TakeOff(index)
    {
      modification[index] := modification[index].(busy := Some(true), takeOff := true);
      assert Rows(checkpoints) == old(Rows(checkpoints));
    }

    method AllocateCheckpoint(index: nat)
      requires Valid() && index < checkpoints.Length0
      modifies this`checkpointAllocate
      ensures Valid() && Model() == old(Model()).(alloc := index)
    {
      checkpointAllocate := index;
      assert Rows(checkpoints) == old(Rows(checkpoints));
    }

    method RestoreCheckpoint(index: nat)
      requires Valid() && index < checkpoints.Length0
      modifies this`checkpointRestore
      ensures Valid() && Model() == old(Model()).(restore := index)
    {
      checkpointRestore := index;
      assert Rows(checkpoints) == old(Rows(checkpoints));
    }

    method ResetInput()
      requires Valid()
      modifies modification, this`checkpointAllocate, this`checkpointRestore
      ensures Valid() && checkpointAllocate == -1 && checkpointRestore == -1
      ensures forall i :: 0 <= i < modification.Length ==> modification[i] == NO_MOD
    {
      for i := 0 to modification.Length
        invariant forall j :: 0 <= j < i ==> modification[j] == NO_MOD
      {
        modification[i] := NO_MOD;
      }
      checkpointAllocate, checkpointRestore := -1, -1;
    }

    /** Copies the busy bits into checkpoint `k`. */
    method Allocate(k: nat)
      requires Valid() && k < checkpoints.Length0
      modifies checkpoints
      ensures forall k', i :: 0 <= k' < checkpoints.Length0 && 0 <= i < busy.Length ==>
                checkpoints[k', i] == if k' == k then busy[i] else old(checkpoints[k', i])
    {
      for i := 0 to busy.Length
        invariant forall k', j :: 0 <= k' < checkpoints.Length0 && 0 <= j < busy.Length ==>
                    checkpoints[k', j] == if k' == k && j < i then busy[j] else old(checkpoints[k', j])
      {
        checkpoints[k, i] := busy[i];
      }
    }

    /** Clears register `i` in every checkpoint. */
    method LandInCheckpoints(i: nat)
      requires Valid() && i < busy.Length
      modifies checkpoints
      ensures forall k, j :: 0 <= k < checkpoints.Length0 && 0 <= j < busy.Length ==>
                checkpoints[k, j] == (old(checkpoints[k, j]) && j != i)
    {
      for k := 0 to checkpoints.Length0
        invariant forall k', j :: 0 <= k' < checkpoints.Length0 && 0 <= j < busy.Length ==>
                    checkpoints[k', j] == (old(checkpoints[k', j]) && (k' < k ==> j != i))
      {
        checkpoints[k, i] := false;
      }
    }

    /** Copies checkpoint `k` back into the busy bits. */
    method Restore(k: nat)
      requires Valid() && k < checkpoints.Length0
      modifies busy
      ensures forall i :: 0 <= i < busy.Length ==> busy[i] == checkpoints[k, i]
    {
      for i := 0 to busy.Length
        invariant forall j :: 0 <= j < i ==> busy[j] == checkpoints[k, j]
      {
        busy[i] := checkpoints[k, i];
      }
    }

    /** Writes the staged busy bits, and every landing through to all checkpoints. */
    method ApplyModification()
      requires Valid()
      modifies busy, checkpoints
      ensures forall j :: 0 <= j < busy.Length ==> busy[j] == modification[j].busy.GetOr(old(busy[j]))
      ensures forall k, j :: 0 <= k < checkpoints.Length0 && 0 <= j < busy.Length ==>
                checkpoints[k, j] == (old(checkpoints[k, j]) && !(modification[j].busy.Some? && modification[j].land))
    {
      for i := 0 to busy.Length
        invariant forall j :: 0 <= j < busy.Length ==>
                    busy[j] == if j < i then modification[j].busy.GetOr(old(busy[j])) else old(busy[j])
        invariant forall k, j :: 0 <= k < checkpoints.Length0 && 0 <= j < busy.Length ==>
                    checkpoints[k, j] == (old(checkpoints[k, j])
                                          && (j < i ==> !(modification[j].busy.Some? && modification[j].land)))
      {
        if modification[i].busy.Some? {
          busy[i] := modification[i].busy.value;
          if modification[i].land {
            LandInCheckpoints(i);
          }
        }
      }
    }

    method Eval()
      requires Valid()
      modifies this`checkpointAllocate, this`checkpointRestore, busy, modification, checkpoints
      ensures Valid() && Model() == old(Model()).Next()
    {
      ghost var m := Model();
      if checkpointAllocate != -1 {
        Allocate(checkpointAllocate);
      }
      assert modification[..] == m.mods;
      ApplyModification();
      GridEquality(Rows(checkpoints), m.NextCheckpoints());
      if checkpointRestore != -1 {
        Restore(checkpointRestore);
        assert Rows(checkpoints) == m.NextCheckpoints();
      }
      assert busy[..] == m.Next().busy;
      ResetInput();
      assert Rows(checkpoints) == m.NextCheckpoints();
      assert modification[..] == m.Next().mods;
    }
  }
}
