/** The shadow alias table: its NRA bits remember the last committed physical register of each
    architectural one, so that the alias table can be synchronised after a squash. */
module ShadowTables {
  import opened Wrappers
  import opened AliasEntries

  /** The value of a shadow table. It shares the entry and modification layout of the alias table. */
  datatype Shadow = Shadow(entries: seq<Entry>, mods: seq<EntryMod>) {

    ghost predicate Valid() {
      |mods| == |entries|
    }

    ghost predicate Idle() {
      forall i :: 0 <= i < |mods| ==> mods[i] == NO_CHANGE
    }

    function Commit(prf: nat, arf: int): (r: Shadow)
      requires Valid() && prf < |entries|
      ensures r.Valid() && r == this.(mods := r.mods)
    {
      if arf == 0 then this
      else
        var m := mods[prf := EntryMod(Some(true), Some(arf), Some(true))];
        this.(mods := seq(|m|, i requires 0 <= i < |m| =>
          if entries[i].arf == arf && m[i].nra.None? then m[i].(nra := Some(false)) else m[i]))
    }

    ghost function NraBits(): (r: seq<bool>)
      ensures |r| == |entries|
    {
      seq(|entries|, i requires 0 <= i < |entries| => entries[i].nra)
    }

    ghost function Next(): (r: Shadow)
      requires Valid()
      ensures r.Valid() && r.Idle() && |r.entries| == |entries|
    {
      Shadow(seq(|entries|, i requires 0 <= i < |entries| => mods[i].Apply(entries[i])),
             seq(|entries|, i => NO_CHANGE))
    }
  }

  ghost function ResetShadow(size: nat): (r: Shadow)
    ensures r.Valid() && r.Idle() && |r.entries| == size
  {
    Shadow(seq(size, i => Entry(false, i, 0, false)), seq(size, i => NO_CHANGE))
  }

  /** A shadow commit alone makes the entry the only one kept for its architectural register and leaves the entries
      of others; register 0 is ignored. */
  lemma KeepsOneFor(sh: Shadow, prf: nat, arf: int, i: nat)
    requires sh.Valid() && sh.Idle() && prf < |sh.entries| && i < |sh.entries|
    ensures arf == 0 ==> sh.Commit(prf, arf) == sh
    ensures arf != 0 ==>
              var e := sh.Commit(prf, arf).Next().entries[i];
              && (e.nra && e.arf == arf <==> i == prf)
              && (i != prf && sh.entries[i].arf != arf ==> e == sh.entries[i])
  {
  }

  class ShadowRegisterAliasTable {
    const entries: array<Entry>
    const modification: array<EntryMod>

    ghost predicate Valid() {
      modification.Length == entries.Length
    }

    ghost function Model(): (r: Shadow)
      requires Valid()
      reads entries, modification
      ensures r.Valid()
    {
      Shadow(entries[..], modification[..])
    }

    ghost function NraBits(): (r: seq<bool>)
      reads entries
      ensures |r| == entries.Length
      ensures forall i :: 0 <= i < |r| ==> r[i] == entries[i].nra
    {
      seq(entries.Length, i requires 0 <= i < entries.Length reads entries => entries[i].nra)
    }

    constructor (size: nat)
      ensures Valid() && Model() == ResetShadow(size)
      ensures fresh(entries) && fresh(modification)
    {
      entries := new Entry[size](i => Entry(false, i, 0, false));
      modification := new EntryMod[size](i => NO_CHANGE);
    }

    method Commit(prf: nat, arf: int)
      requires Valid() && prf < entries.Length
      modifies modification
      ensures Valid() && Model() == old(Model()).Commit(prf, arf)
    {
      if arf == 0 { return; }
      ghost var goal := Model().Commit(prf, arf);
      modification[prf] := EntryMod(Some(true), Some(arf), Some(true));
      ghost var staged := modification[..];
      for i := 0 to entries.Length
        invariant forall j :: 0 <= j < entries.Length ==>
                    modification[j] == if j < i then goal.mods[j] else staged[j]
      {
        if entries[i].arf == arf && modification[i].nra.None? {
          modification[i] := modification[i].(nra := Some(false));
        }
      }
      assert modification[..] == goal.mods;
    }

    method ResetInput()
      requires Valid()
      modifies modification
      ensures forall i :: 0 <= i < modification.Length ==> modification[i] == NO_CHANGE
    {
      for i := 0 to modification.Length
        invariant forall j :: 0 <= j < i ==> modification[j] == NO_CHANGE
      {
        modification[i] := NO_CHANGE;
      }
    }

    method Eval()
      requires Valid()
      modifies entries, modification
      ensures Valid() && Model() == old(Model()).Next()
    {
      ghost var m := Model();
      for i := 0 to entries.Length
        invariant modification[..] == m.mods
        invariant forall j :: 0 <= j < entries.Length ==>
                    entries[j] == if j < i then m.mods[j].Apply(m.entries[j]) else m.entries[j]
      {
        if modification[i] != NO_CHANGE {
          entries[i] := modification[i].Apply(entries[i]);
        }
      }
      assert entries[..] == m.Next().entries;
      ResetInput();
      assert modification[..] == m.Next().mods;
    }
  }
}
