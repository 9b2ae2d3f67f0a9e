/** The register alias table: which physical register holds which architectural one (the V bit),
    and which physical registers may not be handed out again (the NRA bit). */
module AliasTables {
  import opened Wrappers
  import opened Scoreboards
  import opened AliasEntries
  import opened ShadowTables

  /** The first index from `i` on whose entry is valid and maps `arf`; -1 if there is none. */
  function AliasIndex(es: seq<Entry>, arf: int, i: nat): (r: int)
    requires i <= |es|
    ensures r == -1 || i <= r < |es|
    ensures r >= 0 ==> es[r].v && es[r].arf == arf
    ensures forall j :: i <= j < (if r < 0 then |es| else r) ==> !(es[j].v && es[j].arf == arf)
    decreases |es| - i
  {
    if i == |es| then -1
    else if es[i].v && es[i].arf == arf then i
    else AliasIndex(es, arf, i + 1)
  }

  /** The first index from `i` on whose entry may be handed out; -1 if there is none. */
  function FreeIndex(es: seq<Entry>, i: nat): (r: int)
    requires i <= |es|
    ensures r == -1 || i <= r < |es|
    ensures r >= 0 ==> !es[r].nra
    ensures forall j :: i <= j < (if r < 0 then |es| else r) ==> es[j].nra
    decreases |es| - i
  {
    if i == |es| then -1 else if !es[i].nra then i else FreeIndex(es, i + 1)
  }

  /** Nothing may be handed out. */
  ghost predicate Full(es: seq<Entry>) {
    forall i :: 0 <= i < |es| ==> es[i].nra
  }

  /** The physical register an architectural one is read from; -1 for register 0 and for a
      register that is mapped nowhere. */
  function Alias(es: seq<Entry>, arf: int): int {
    if arf == 0 then -1
    else
      var i := AliasIndex(es, arf, 0);
      if i < 0 then -1 else es[i].prf
  }

  datatype Touched = Touched(table: Table, ok: bool, prf: Option<nat>)

  /** The value of an alias table; -1 in `alloc` or `restore` means that nothing is requested. */
  datatype Table = Table(entries: seq<Entry>, mods: seq<EntryMod>, cks: seq<seq<bool>>, alloc: int, restore: int) {

    ghost predicate Valid() {
      && |mods| == |entries|
      && (forall k :: 0 <= k < |cks| ==> |cks[k]| == |entries|)
      && -1 <= alloc < |cks|
      && -1 <= restore < |cks|
    }

    /** Nothing is staged: the state that `ResetInput` leaves. */
    ghost predicate Idle() {
      && alloc == -1 && restore == -1
      && forall i :: 0 <= i < |mods| ==> mods[i] == NO_CHANGE
    }

    /** Stages the end of the current mapping of `arf`. */
    function Invalidate(arf: int): (r: Table)
      requires Valid()
      ensures r.Valid() && r == this.(mods := r.mods)
    {
      var i := AliasIndex(entries, arf, 0);
      if arf == 0 || i < 0 then this else this.(mods := mods[i := mods[i].(v := Some(false))])
    }

    /** Stages the end of the current mapping of `arf` and the release of every entry of `arf`. */
    function InvalidateAndRelease(arf: int): (r: Table)
      requires Valid()
      ensures r.Valid() && r == this.(mods := r.mods)
    {
      if arf == 0 then this
      else this.(mods := seq(|mods|, i requires 0 <= i < |mods| =>
        if entries[i].arf != arf then mods[i]
        else if i == AliasIndex(entries, arf, 0) then mods[i].(nra := Some(false), v := Some(false))
        else mods[i].(nra := Some(false))))
    }

    /** Stages a new mapping of `arf` to the first entry that may be handed out. */
    function Touch(inFlight: bool, arf: int): (r: Touched)
      requires Valid()
      ensures r.table.Valid() && r.table == this.(mods := r.table.mods)
      ensures r.prf.Some? ==> r.prf.value < |entries|
    {
      if arf == 0 then Touched(this, true, None)
      else
        var index := FreeIndex(entries, 0);
        if index < 0 then Touched(this, false, None)
        else
          var t := if inFlight then Invalidate(arf) else InvalidateAndRelease(arf);
          Touched(t.(mods := t.mods[index := EntryMod(Some(true), Some(arf), Some(true))]), true, Some(index))
    }

    /** Stages the release of every entry that shares the architectural register of `prf` and is
        not busy; a staged NRA write takes precedence. */
    function Commit(busy: seq<bool>, prf: nat): (r: Table)
      requires Valid() && |busy| == |entries| && prf < |entries|
      ensures r.Valid() && r == this.(mods := r.mods)
    {
      this.(mods := seq(|mods|, i requires 0 <= i < |mods| =>
        if !busy[i] && entries[i].arf == entries[prf].arf && mods[i].nra.None?
        then mods[i].(nra := Some(false)) else mods[i]))
    }

    /** Stages, over anything already staged, NRA bits taken from the shadow table. */
    function SyncNRA(shadow: seq<bool>): (r: Table)
      requires Valid() && |shadow| == |entries|
      ensures r.Valid() && r == this.(mods := r.mods)
    {
      this.(mods := seq(|mods|, i requires 0 <= i < |mods| => mods[i].(nra := Some(shadow[i]))))
    }

    ghost function NextCheckpoints(): (r: seq<seq<bool>>)
      requires Valid()
      ensures |r| == |cks| && forall k :: 0 <= k < |r| ==> |r[k]| == |entries|
      ensures forall k, i :: 0 <= k < |r| && 0 <= i < |entries| ==>
                r[k][i] == if k == alloc then entries[i].v else cks[k][i]
    {
      seq(|cks|, k requires 0 <= k < |cks| =>
        seq(|entries|, i requires 0 <= i < |entries| => if k == alloc then entries[i].v else cks[k][i]))
    }

    ghost function NextEntries(): (r: seq<Entry>)
      requires Valid()
      ensures |r| == |entries|
    {
      seq(|entries|, i requires 0 <= i < |entries| =>
        var e := mods[i].Apply(entries[i]);
        if restore != -1 then e.(v := NextCheckpoints()[restore][i]) else e)
    }

    /** The state after the clock edge. */
    ghost function Next(): (r: Table)
      requires Valid()
      ensures r.Valid() && r.Idle() && |r.entries| == |entries| && |r.cks| == |cks|
    {
      Table(NextEntries(), seq(|entries|, i => NO_CHANGE), NextCheckpoints(), -1, -1)
    }
  }

  /** A reset alias table: entry i names physical register i, nothing is mapped or staged. */
  ghost function ResetTable(size: nat, checkpoints: nat): (r: Table)
    ensures r.Valid() && r.Idle() && |r.entries| == size && |r.cks| == checkpoints
  {
    Table(seq(size, i => Entry(false, i, 0, false)), seq(size, i => NO_CHANGE),
          seq(checkpoints, k => seq(size, i => false)), -1, -1)
  }

  /** A touch and a commit staged in one cycle leave the same staged writes, and the touch hands
      out the same register, whichever of the two is called first. */
  lemma TouchAndCommitCommute(t: Table, arf: int, busy: seq<bool>, prf: nat)
    requires t.Valid() && |busy| == |t.entries| && prf < |t.entries|
    ensures var a, b := t.Touch(true, arf), t.Commit(busy, prf).Touch(true, arf);
            a.table.Commit(busy, prf) == b.table && a.ok == b.ok && a.prf == b.prf
  {
    var a, b := t.Touch(true, arf), t.Commit(busy, prf).Touch(true, arf);
    assert a.table.Commit(busy, prf).mods == b.table.mods;
  }

  /** Synchronised NRA bits prevail over whatever else the cycle has staged, and touch nothing else. */
  lemma SyncPrevails(t: Table, shadow: seq<bool>, i: nat)
    requires t.Valid() && |shadow| == |t.entries| && i < |t.entries|
    ensures t.SyncNRA(shadow).Next().entries[i] == t.Next().entries[i].(nra := shadow[i])
  {
  }

  /** A commit alone keeps what is busy or of another architectural register, releases everything else, and touches
      nothing but NRA. */
  lemma CommitReleases(t: Table, busy: seq<bool>, prf: nat, i: nat)
    requires t.Valid() && t.Idle() && |busy| == |t.entries| && prf < |t.entries| && i < |t.entries|
    ensures var e, e' := t.entries[i], t.Commit(busy, prf).Next().entries[i];
            && (e'.nra <==> e.nra && (busy[i] || e.arf != t.entries[prf].arf))
            && e'.arf == e.arf && e'.prf == e.prf && e'.v == e.v
  {
  }

  /** Invalidating and releasing an architectural register that is mapped at most once leaves it mapped nowhere and
      keeps nothing of it; entries of other registers stay as they are. */
  lemma ReleasesAll(t: Table, arf: int)
    requires t.Valid() && t.Idle() && arf != 0
    requires forall i, j :: 0 <= i < j < |t.entries| && t.entries[i].v && t.entries[j].v ==>
               t.entries[i].arf != t.entries[j].arf
    ensures var es, r := t.entries, t.InvalidateAndRelease(arf).Next().entries;
            && Alias(r, arf) == -1
            && (forall i :: 0 <= i < |es| && es[i].arf == arf ==> !r[i].nra && r[i].arf == arf)
            && (forall i :: 0 <= i < |es| && es[i].arf != arf ==> r[i] == es[i])
  {
    var es, r := t.entries, t.InvalidateAndRelease(arf).Next().entries;
    forall i | 0 <= i < |es| && es[i].arf == arf ensures !r[i].v && !r[i].nra && r[i].arf == arf {
      var first := AliasIndex(es, arf, 0);
      assert es[i].v ==> i == first;
    }
  }

  /** No call on register 0 stages anything. */
  lemma ZeroIsIgnored(t: Table, inFlight: bool)
    requires t.Valid()
    ensures t.Invalidate(0) == t && t.InvalidateAndRelease(0) == t
    ensures t.Touch(inFlight, 0) == Touched(t, true, None) && Alias(t.entries, 0) == -1
  {
  }

  class RegisterAliasTable {
    const entries: array<Entry>
    const modification: array<EntryMod>
    const checkpoints: array2<bool>
    const scoreboard: Scoreboard
    var checkpointAllocate: int
    var checkpointRestore: int

    ghost predicate Valid()
      reads this
    {
      && modification.Length == entries.Length
      && checkpoints.Length1 == entries.Length
      && scoreboard.busy.Length == entries.Length
      && checkpoints != scoreboard.checkpoints
      && -1 <= checkpointAllocate < checkpoints.Length0
      && -1 <= checkpointRestore < checkpoints.Length0
    }

    ghost function Model(): (r: Table)
      requires Valid()
      reads this, entries, modification, checkpoints
      ensures r.Valid()
    {
      Table(entries[..], modification[..], Rows(checkpoints), checkpointAllocate, checkpointRestore)
    }

    constructor (board: Scoreboard, checkpointCount: nat)
      requires board.Valid()
      ensures Valid() && scoreboard == board && Model() == ResetTable(board.busy.Length, checkpointCount)
      ensures fresh(entries) && fresh(modification) && fresh(checkpoints)
    {
      var size := board.busy.Length;
      entries := new Entry[size](i => Entry(false, i, 0, false));
      modification := new EntryMod[size](i => NO_CHANGE);
      checkpoints := new bool[checkpointCount, size]((k, i) => false);
      scoreboard := board;
      checkpointAllocate, checkpointRestore := -1, -1;
      new;
      GridEquality(Rows(checkpoints), ResetTable(size, checkpointCount).cks);
    }

    method GetAliasPRF(arf: int) returns (prf: int)
      requires Valid()
      ensures prf == Alias(Model().entries, arf)
    {
      if arf == 0 { return -1; }
      for i := 0 to entries.Length
        invariant AliasIndex(entries[..], arf, 0) == AliasIndex(entries[..], arf, i)
      {
        if entries[i].v && entries[i].arf == arf { return entries[i].prf; }
      }
      return -1;
    }

    method IsFull() returns (full: bool)
      requires Valid()
      ensures full <==> Full(Model().entries)
    {
      for i := 0 to entries.Length
        invariant forall j :: 0 <= j < i ==> entries[j].nra
      {
        if !entries[i].nra { return false; }
      }
      return true;
    }

    method GetNextEntry() returns (index: int)
      requires Valid()
      ensures index == FreeIndex(Model().entries, 0)
    {
      for i := 0 to entries.Length
        invariant FreeIndex(entries[..], 0) == FreeIndex(entries[..], i)
      {
        if !entries[i].nra { return i; }
      }
      return -1;
    }

    method Invalidate(arf: int)
      requires Valid()
      modifies modification
      ensures Valid() && Model() == old(Model()).Invalidate(arf)
    {
      assert Rows(checkpoints) == old(Rows(checkpoints));
      if arf == 0 { return; }
      for i := 0 to entries.Length
        invariant Model() == old(Model())
        invariant AliasIndex(entries[..], arf, 0) == AliasIndex(entries[..], arf, i)
      {
        if entries[i].v && entries[i].arf == arf {
          modification[i] := modification[i].(v := Some(false));
          assert Rows(checkpoints) == old(Rows(checkpoints));
          return;
        }
      }
    }

    method LandAndRelease(prf: nat)
      requires Valid() && prf < entries.Length
      modifies modification
      ensures Valid() && Model() == old(Model()).Commit(old(scoreboard.busy[..]), prf)
    {
      ghost var goal := Model().Commit(scoreboard.busy[..], prf);
      var arf := entries[prf].arf;
      for i := 0 to entries.Length
        invariant forall j :: 0 <= j < i ==> modification[j] == goal.mods[j]
        invariant forall j :: i <= j < entries.Length ==> modification[j] == old(modification[j])
      {
        var busy := scoreboard.IsBusy(i);
        if !busy && entries[i].arf == arf {
          if modification[i].nra.None? {
            modification[i] := modification[i].(nra := Some(false));
          }
        }
      }
      assert modification[..] == goal.mods;
      assert Rows(checkpoints) == old(Rows(checkpoints));
    }

    method InvalidateAndRelease(arf: int)
      requires Valid()
      modifies modification
      ensures Valid() && Model() == old(Model()).InvalidateAndRelease(arf)
    {
      assert Rows(checkpoints) == old(Rows(checkpoints));
      if arf == 0 { return; }
      ghost var goal := Model().InvalidateAndRelease(arf);
      ghost var target := AliasIndex(entries[..], arf, 0);
      var invalidated := false;
      for i := 0 to entries.Length
        invariant target == if invalidated then target else AliasIndex(entries[..], arf, i)
        invariant invalidated ==> 0 <= target < i
        invariant forall j :: 0 <= j < i ==> modification[j] == goal.mods[j]
        invariant forall j :: i <= j < entries.Length ==> modification[j] == old(modification[j])
      {
        if entries[i].arf == arf {
          if !invalidated && entries[i].v {
            modification[i] := modification[i].(v := Some(false));
            invalidated := true;
          }
          modification[i] := modification[i].(nra := Some(false));
        }
      }
      assert modification[..] == goal.mods;
      assert Rows(checkpoints) == old(Rows(checkpoints));
    }

    /** `prf` is -1 where the source leaves its output parameter unwritten. */
    method Touch(inFlight: bool, arf: int) returns (ok: bool, prf: int)
      requires Valid()
      modifies modification
      ensures Valid()
      ensures var t := old(Model()).Touch(inFlight, arf);
              Model() == t.table && ok == t.ok && prf == (if t.prf.Some? then t.prf.value else -1)
    {
      if arf == 0 { return true, -1; }
      var index := GetNextEntry();
      if index < 0 { return false, -1; }
      if inFlight { Invalidate(arf); } else { InvalidateAndRelease(arf); }
      modification[index] := EntryMod(Some(true), Some(arf), Some(true));
      assert Rows(checkpoints) == old(Rows(checkpoints));
      return true, index;
    }

    method Commit(prf: nat)
      requires Valid() && prf < entries.Length
      modifies modification
      ensures Valid() && Model() == old(Model()).Commit(old(scoreboard.busy[..]), prf)
    {
      LandAndRelease(prf);
    }

    method SyncNRA(shadow: ShadowRegisterAliasTable)
      requires Valid() && shadow.Valid() && shadow.entries.Length == entries.Length
      modifies modification
      ensures Valid() && Model() == old(Model().SyncNRA(shadow.NraBits()))
    {
      ghost var goal := Model().SyncNRA(shadow.NraBits());
      for i := 0 to entries.Length
        invariant forall j :: 0 <= j < i ==> modification[j] == goal.mods[j]
        invariant forall j :: i <= j < entries.Length ==> modification[j] == old(modification[j])
      {
        modification[i] := modification[i].(nra := Some(shadow.entries[i].nra));
      }
      assert modification[..] == goal.mods;
      assert Rows(checkpoints) == old(Rows(checkpoints));
    }

    method AllocateCheckpoint(index: nat)
      requires Valid() && index < checkpoints.Length0
      modifies this`checkpointAllocate
      ensures Valid() && Model() == old(Model()).(alloc := index)
    {
      checkpointAllocate := index;
      assert Rows(checkpoints) == old(Rows(checkpoints));
    }

    method RestoreCheckpoint(index: nat)
      requires Valid() && index < checkpoints.Length0
      modifies this`checkpointRestore
      ensures Valid() && Model() == old(Model()).(restore := index)
    {
      checkpointRestore := index;
      assert Rows(checkpoints) == old(Rows(checkpoints));
    }

    method ResetInput()
      requires Valid()
      modifies modification, this`checkpointAllocate, this`checkpointRestore
      ensures Valid() && checkpointAllocate == -1 && checkpointRestore == -1
      ensures forall i :: 0 <= i < modification.Length ==> modification[i] == NO_CHANGE
    {
      for i := 0 to modification.Length
        invariant forall j :: 0 <= j < i ==> modification[j] == NO_CHANGE
      {
        modification[i] := NO_CHANGE;
      }
      checkpointAllocate, checkpointRestore := -1, -1;
    }

    /** Copies the V bits into checkpoint `k`. */
    method Allocate(k: nat)
      requires Valid() && k < checkpoints.Length0
      modifies checkpoints
      ensures forall k', i :: 0 <= k' < checkpoints.Length0 && 0 <= i < entries.Length ==>
                checkpoints[k', i] == if k' == k then entries[i].v else old(checkpoints[k', i])
    {
      for i := 0 to entries.Length
        invariant forall k', j :: 0 <= k' < checkpoints.Length0 && 0 <= j < entries.Length ==>
                    checkpoints[k', j] == if k' == k && j < i then entries[j].v else old(checkpoints[k', j])
      {
        checkpoints[k, i] := entries[i].v;
      }
    }

    /** Copies checkpoint `k` back into the V bits, and touches nothing else. */
    method Restore(k: nat)
      requires Valid() && k < checkpoints.Length0
      modifies entries
      ensures forall i :: 0 <= i < entries.Length ==> entries[i] == old(entries[i]).(v := checkpoints[k, i])
    {
      for i := 0 to entries.Length
        invariant forall j :: 0 <= j < entries.Length ==>
                    entries[j] == if j < i then old(entries[j]).(v := checkpoints[k, j]) else old(entries[j])
      {
        entries[i] := entries[i].(v := checkpoints[k, i]);
      }
    }

    /** Writes the staged fields of every entry. */
    method ApplyModification()
      requires Valid()
      modifies entries
      ensures forall i :: 0 <= i < entries.Length ==> entries[i] == modification[i].Apply(old(entries[i]))
    {
      for i := 0 to entries.Length
        invariant forall j :: 0 <= j < entries.Length ==>
                    entries[j] == if j < i then modification[j].Apply(old(entries[j])) else old(entries[j])
      {
        if modification[i] != NO_CHANGE {
          entries[i] := modification[i].Apply(entries[i]);
        }
      }
    }

    method Eval()
      requires Valid()
      modifies this`checkpointAllocate, this`checkpointRestore, entries, modification, checkpoints
      ensures Valid() && Model() == old(Model()).Next()
    {
      ghost var m := Model();
      if checkpointAllocate != -1 {
        Allocate(checkpointAllocate);
      }
      GridEquality(Rows(checkpoints), m.NextCheckpoints());
      ApplyModification();
      assert Rows(checkpoints) == m.NextCheckpoints();
      if checkpointRestore != -1 {
        Restore(checkpointRestore);
        assert Rows(checkpoints) == m.NextCheckpoints();
      }
      assert entries[..] == m.NextEntries();
      ResetInput();
      assert Rows(checkpoints) == m.NextCheckpoints();
      assert modification[..] == m.Next().mods;
    }
  }
}
