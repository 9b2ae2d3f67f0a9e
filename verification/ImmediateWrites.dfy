/** Architectural writes that rename, commit and clock at once, against the reference registers. */
module ImmediateWrites {
  import opened RegisterFiles
  import opened Instructions
  import opened Scoreboards
  import opened AliasEntries
  import opened AliasTables
  import opened Occupancy

  datatype Machine = Machine(rat: Table, prf: Registers)

  ghost predicate Sized(m: Machine) {
    m.rat.Valid() && m.rat.Idle() && m.prf.Valid() && m.prf.index < 0 && |m.prf.prfs| == |m.rat.entries|
  }

  /** Reads through the alias table; an unmapped register reads 0. */
  function ArfValue(m: Machine, arf: nat): Word
    requires |m.prf.prfs| == |m.rat.entries|
    requires forall i :: 0 <= i < |m.rat.entries| ==> m.rat.entries[i].prf == i
  {
    var p := Alias(m.rat.entries, arf);
    if arf == 0 || p < 0 then 0 else m.prf.prfs[p]
  }

  /** Touches without anything in flight, writes the value and clocks both tables. */
  ghost function Written(m: Machine, arf: nat, v: Word): (r: (Machine, bool))
    requires Sized(m)
    ensures Sized(r.0) && |r.0.rat.entries| == |m.rat.entries|
  {
    var t := m.rat.Touch(false, arf);
    if arf == 0 then (Machine(m.rat.Next(), m.prf.Next()), true)
    else if t.prf.None? then (m, false)
    else (Machine(t.table.Next(), m.prf.Set(t.prf.value, v).Next()), true)
  }

  /** A write fails if and only if it is not to register 0 and the table is full; a failed write changes
      nothing. */
  lemma FailsExactly(m: Machine, arf: nat, v: Word)
    requires Sized(m)
    ensures !Written(m, arf, v).1 <==> arf != 0 && Full(m.rat.entries)
    ensures !Written(m, arf, v).1 ==> Written(m, arf, v).0 == m
  {
  }

  datatype Write = Write(arf: nat, value: Word)

  ghost function WriteAll(m: Machine, ws: seq<Write>): (r: (Machine, bool))
    requires Sized(m)
    ensures Sized(r.0) && |r.0.rat.entries| == |m.rat.entries|
    decreases |ws|
  {
    if ws == [] then (m, true)
    else
      var first := Written(m, ws[0].arf, ws[0].value);
      var rest := WriteAll(first.0, ws[1..]);
      (rest.0, first.1 && rest.1)
  }

  function RefWriteAll(regs: Regs, ws: seq<Write>): Regs
    decreases |ws|
  {
    if ws == [] then regs else RefWriteAll(RefWrite(regs, ws[0].arf, ws[0].value), ws[1..])
  }

  ghost function ResetMachine(size: nat, checkpoints: nat): (m: Machine)
    ensures Sized(m)
  {
    Machine(ResetTable(size, checkpoints), Registers(seq(size, i => 0), -1, 0))
  }

  /** The table maps each architectural register below `regs` at most once, keeps exactly what it
      maps, and the mapped registers hold the reference values. */
  ghost predicate Reflects(es: seq<Entry>, prfs: seq<Word>, regs: Regs, count: nat)
    requires |prfs| == |es|
  {
    && (forall i :: 0 <= i < |es| ==> es[i].prf == i && es[i].v == es[i].nra)
    && (forall i :: 0 <= i < |es| && es[i].v ==> 0 < es[i].arf < count && prfs[i] == RefRead(regs, es[i].arf))
    && (forall i, j :: 0 <= i < j < |es| && es[i].v && es[j].v ==> es[i].arf != es[j].arf)
    && (forall a: nat :: RefRead(regs, a) != 0 ==> AliasIndex(es, a, 0) >= 0)
  }

  ghost predicate Mirrors(m: Machine, regs: Regs, count: nat) {
    Sized(m) && Reflects(m.rat.entries, m.prf.prfs, regs, count)
  }

  lemma RoomForWrite(m: Machine, regs: Regs, count: nat)
    requires Mirrors(m, regs, count) && 0 < count <= |m.rat.entries|
    ensures FreeIndex(m.rat.entries, 0) >= 0
  {
    var es := m.rat.entries;
    var homes := (a: int) => AliasIndex(es, a, 0);
    var among := set a | 1 <= a < count :: homes(a);
    ImageBound(homes, 1, count);
    forall i | i in Kept(es) ensures i in among {
      var j := AliasIndex(es, es[i].arf, 0);
      assert j == i;
      assert homes(es[i].arf) == i;
    }
    RoomLeft(es, among);
  }

  /** What a write leaves: the new mapping, every other entry of the register released, the rest
      as it was. */
  lemma WrittenEntries(m: Machine, regs: Regs, count: nat, arf: nat, v: Word, i: nat)
    requires Mirrors(m, regs, count) && arf != 0 && FreeIndex(m.rat.entries, 0) >= 0 && i < |m.rat.entries|
    ensures var es, r := m.rat.entries, Written(m, arf, v);
            && r.1 && r.0.prf.prfs == m.prf.prfs[FreeIndex(es, 0) := v]
            && r.0.rat.entries[i] == if i == FreeIndex(es, 0) then Entry(true, i, arf, true)
                                     else if es[i].arf == arf then Entry(false, i, arf, false) else es[i]
  {
    var es, o := m.rat.entries, AliasIndex(m.rat.entries, arf, 0);
    if es[i].v && es[i].arf == arf { assert i == o; }
  }

  lemma WrittenReflects(es: seq<Entry>, prfs: seq<Word>, regs: Regs, count: nat, arf: nat, v: Word,
                        t: nat, es': seq<Entry>)
    requires |prfs| == |es| == |es'| && Reflects(es, prfs, regs, count)
    requires 0 < arf < count && t < |es| && !es[t].nra
    requires forall i :: 0 <= i < |es| ==>
               es'[i] == if i == t then Entry(true, i, arf, true)
                         else if es[i].arf == arf then Entry(false, i, arf, false) else es[i]
    ensures Reflects(es', prfs[t := v], RefWrite(regs, arf, v), count)
  {
    var regs' := RefWrite(regs, arf, v);
    forall a: nat | RefRead(regs', a) != 0 ensures AliasIndex(es', a, 0) >= 0 {
      var o := if a == arf then t else AliasIndex(es, a, 0);
      assert a != arf ==> RefRead(regs, a) != 0;
      assert es'[o].v && es'[o].arf == a;
    }
  }

  /** One write succeeds and keeps the mirror. */
  lemma WriteKeepsMirror(m: Machine, regs: Regs, count: nat, arf: nat, v: Word)
    requires Mirrors(m, regs, count) && 0 < arf < count && FreeIndex(m.rat.entries, 0) >= 0
    ensures Written(m, arf, v).1
    ensures Mirrors(Written(m, arf, v).0, RefWrite(regs, arf, v), count)
  {
    var es, t, m' := m.rat.entries, FreeIndex(m.rat.entries, 0), Written(m, arf, v).0;
    forall i | 0 <= i < |es|
      ensures m'.rat.entries[i] == if i == t then Entry(true, i, arf, true)
                                   else if es[i].arf == arf then Entry(false, i, arf, false) else es[i]
    {
      WrittenEntries(m, regs, count, arf, v, i);
    }
    WrittenEntries(m, regs, count, arf, v, t);
    WrittenReflects(es, m.prf.prfs, regs, count, arf, v, t, m'.rat.entries);
  }

  /** A write to register 0 changes nothing. */
  lemma ZeroWriteKeepsMirror(m: Machine, regs: Regs, count: nat, v: Word)
    requires Mirrors(m, regs, count)
    ensures Written(m, 0, v).1
    ensures Mirrors(Written(m, 0, v).0, RefWrite(regs, 0, v), count)
  {
    assert Written(m, 0, v).0.rat.entries == m.rat.entries;
  }

  lemma {:induction false} WritesKeepMirror(m: Machine, regs: Regs, count: nat, ws: seq<Write>)
    requires Mirrors(m, regs, count) && 0 < count <= |m.rat.entries|
    requires forall k :: 0 <= k < |ws| ==> ws[k].arf < count
    ensures WriteAll(m, ws).1 && Mirrors(WriteAll(m, ws).0, RefWriteAll(regs, ws), count)
    decreases |ws|
  {
    if ws != [] {
      RoomForWrite(m, regs, count);
      if ws[0].arf == 0 { ZeroWriteKeepsMirror(m, regs, count, ws[0].value); }
      else { WriteKeepsMirror(m, regs, count, ws[0].arf, ws[0].value); }
      WritesKeepMirror(Written(m, ws[0].arf, ws[0].value).0,
                       RefWrite(regs, ws[0].arf, ws[0].value), count, ws[1..]);
    }
  }

  /** After any sequence of writes to registers below `count`, on a table with at least that many
      entries, no write has failed and every register reads as the reference does. */
  lemma ImmediateWriteRefinement(size: nat, checkpoints: nat, count: nat, ws: seq<Write>, arf: nat)
    requires 0 < count <= size && forall k :: 0 <= k < |ws| ==> ws[k].arf < count
    ensures var r := WriteAll(ResetMachine(size, checkpoints), ws);
            && r.1
            && (forall i :: 0 <= i < |r.0.rat.entries| ==> r.0.rat.entries[i].prf == i)
            && ArfValue(r.0, arf) == RefRead(RefWriteAll(map[], ws), arf)
  {
    var m := ResetMachine(size, checkpoints);
    assert Mirrors(m, map[], count);
    WritesKeepMirror(m, map[], count, ws);
  }

  /** The simulation context that performs such writes, with the zero-register convention on. */
  class SimContext {
    const rat: RegisterAliasTable
    const registers: PhysicalRegisterFile

    ghost predicate Valid()
      reads this, rat, rat.scoreboard, registers
    {
      && rat.Valid() && registers.Valid() && registers.prfs.Length == rat.entries.Length
      && registers.prfs as object !in {rat.entries as object, rat.modification, rat.checkpoints}
    }

    ghost function Model(): Machine
      requires Valid()
      reads this, rat, rat.scoreboard, rat.entries, rat.modification, rat.checkpoints, registers, registers.prfs
    {
      Machine(rat.Model(), registers.Model())
    }

    constructor (size: nat, checkpoints: nat)
      ensures Valid() && Model() == ResetMachine(size, checkpoints)
    {
      var board := new Scoreboard(size, checkpoints);
      rat := new RegisterAliasTable(board, checkpoints);
      registers := new PhysicalRegisterFile(size);
    }

    method GetO3ARF(arf: nat) returns (v: Word)
      requires Valid() && forall i :: 0 <= i < rat.entries.Length ==> Model().rat.entries[i].prf == i
      ensures v == ArfValue(Model(), arf)
    {
      if arf == 0 { return 0; }
      var prf := rat.GetAliasPRF(arf);
      if prf < 0 { return 0; }
      assert prf == Model().rat.entries[AliasIndex(Model().rat.entries, arf, 0)].prf;
      v := registers.Get(prf);
    }

    method SetO3ARFAndEval(arf: nat, value: Word) returns (ok: bool)
      requires Valid() && Sized(Model())
      modifies rat, rat.entries, rat.modification, rat.checkpoints, registers, registers.prfs
      ensures Valid() && (Model(), ok) == old(Written(Model(), arf, value))
    {
      ghost var m := Model();
      if arf != 0 {
        var touched, prf := rat.Touch(false, arf);
        assert registers.Model() == m.prf;
        if !touched { return false; }
        ghost var t := rat.Model();
        registers.Set(prf, value);
        assert rat.Model() == t;
      }
      ghost var staged := Model();
      rat.Eval();
      assert registers.Model() == staged.prf;
      registers.Eval();
      assert rat.Model() == staged.rat.Next();
      return true;
    }
  }
}
