/** What an alias table checkpoint brings back, whatever happened since it was taken. */
module AliasRecovery {
  import opened Wrappers
  import opened Scoreboards
  import opened AliasEntries
  import opened AliasTables

  /** One clock cycle: what its calls have staged, and the checkpoint requests. */
  datatype Cycle = Cycle(mods: seq<EntryMod>, alloc: int, restore: int)

  ghost predicate CycleFits(c: Cycle, size: nat, checkpoints: nat) {
    |c.mods| == size && -1 <= c.alloc < checkpoints && -1 <= c.restore < checkpoints
  }

  ghost predicate AllFit(cycles: seq<Cycle>, size: nat, checkpoints: nat) {
    forall c :: 0 <= c < |cycles| ==> CycleFits(cycles[c], size, checkpoints)
  }

  /** The table after one cycle. */
  ghost function Advance(t: Table, c: Cycle): (r: Table)
    requires t.Valid() && CycleFits(c, |t.entries|, |t.cks|)
    ensures r.Valid() && r.Idle() && |r.entries| == |t.entries| && |r.cks| == |t.cks|
  {
    t.(mods := c.mods, alloc := c.alloc, restore := c.restore).Next()
  }

  ghost function Run(t: Table, cycles: seq<Cycle>): (r: Table)
    requires t.Valid() && t.Idle() && AllFit(cycles, |t.entries|, |t.cks|)
    ensures r.Valid() && r.Idle() && |r.entries| == |t.entries| && |r.cks| == |t.cks|
  {
    if cycles == [] then t
    else Advance(Run(t, cycles[..|cycles| - 1]), cycles[|cycles| - 1])
  }

  /** Entry i keeps PRF i, and each architectural register is mapped at most once, register 0 never. */
  ghost predicate Unambiguous(es: seq<Entry>) {
    && (forall i :: 0 <= i < |es| ==> es[i].prf == i)
    && (forall i :: 0 <= i < |es| && es[i].v ==> es[i].arf != 0)
    && (forall i, j :: 0 <= i < j < |es| && es[i].v && es[j].v ==> es[i].arf != es[j].arf)
  }

  /** A checkpoint keeps the V bits of its allocation until it is allocated again; no entry changes its PRF. */
  lemma {:induction false} CheckpointKeepsMapping(t: Table, cycles: seq<Cycle>, k: nat, i: nat)
    requires t.Valid() && t.Idle() && AllFit(cycles, |t.entries|, |t.cks|) && k < |t.cks| && i < |t.entries|
    requires cycles != [] && cycles[0].alloc == k && forall c :: 0 < c < |cycles| ==> cycles[c].alloc != k
    ensures var r := Run(t, cycles);
            && r.cks[k][i] == t.entries[i].v && r.entries[i].prf == t.entries[i].prf
            && (cycles[|cycles| - 1].restore == k ==> r.entries[i].v == t.entries[i].v)
  {
    var front := cycles[..|cycles| - 1];
    if front != [] { CheckpointKeepsMapping(t, front, k, i); }
  }

  /** The number an entry carries once the given cycles have taken effect: the last one staged for it, or the
      one it had. It is known before the last clock edge. */
  function StagedArf(arf: int, cycles: seq<Cycle>, i: nat): int
    requires forall c :: 0 <= c < |cycles| ==> i < |cycles[c].mods|
  {
    if cycles == [] then arf
    else cycles[|cycles| - 1].mods[i].arf.GetOr(StagedArf(arf, cycles[..|cycles| - 1], i))
  }

  /** Restores do not touch the numbers: only what was staged counts. */
  lemma {:induction false} ArfIsStaged(t: Table, cycles: seq<Cycle>, i: nat)
    requires t.Valid() && t.Idle() && AllFit(cycles, |t.entries|, |t.cks|) && i < |t.entries|
    ensures Run(t, cycles).entries[i].arf == StagedArf(t.entries[i].arf, cycles, i)
  {
    if cycles != [] { ArfIsStaged(t, cycles[..|cycles| - 1], i); }
  }

  /** Tables with the same V bits map every register alike exactly when no mapped entry changed its number. */
  lemma SameAliases(es: seq<Entry>, es': seq<Entry>)
    requires |es'| == |es| && Unambiguous(es)
    requires forall i :: 0 <= i < |es| ==> es'[i].v == es[i].v && es'[i].prf == es[i].prf
    ensures (forall a: int :: Alias(es', a) == Alias(es, a)) <==>
              (forall i :: 0 <= i < |es| && es[i].v ==> es'[i].arf == es[i].arf)
  {
    if forall i :: 0 <= i < |es| && es[i].v ==> es'[i].arf == es[i].arf {
      forall a: int ensures Alias(es', a) == Alias(es, a) {
        assert AliasIndex(es', a, 0) == AliasIndex(es, a, 0);
      }
    }
    if forall a: int :: Alias(es', a) == Alias(es, a) {
      forall i | 0 <= i < |es| && es[i].v ensures es'[i].arf == es[i].arf {
        var a := es[i].arf;
        assert AliasIndex(es, a, 0) == i;
        assert Alias(es', a) == i;
      }
    }
  }

  /** Every entry that was mapped is to stand under its old number again. */
  ghost predicate StandsAgain(es: seq<Entry>, cycles: seq<Cycle>)
    requires forall c :: 0 <= c < |cycles| ==> |cycles[c].mods| == |es|
  {
    forall i :: 0 <= i < |es| && es[i].v ==> StagedArf(es[i].arf, cycles, i) == es[i].arf
  }

  /** The exact condition of recovery, with no protocol assumed. Checkpoint k is allocated in the first cycle and
      restored in the last. Every architectural register is then mapped as at the start of the first cycle if
      and only if, for each entry mapped at that time, the last number staged for it since, if any, is the one
      it had. */
  lemma {:induction false} RecoveredExactly(t: Table, cycles: seq<Cycle>, k: nat)
    requires t.Valid() && t.Idle() && AllFit(cycles, |t.entries|, |t.cks|)
    requires Unambiguous(t.entries) && k < |t.cks|
    requires cycles != [] && cycles[0].alloc == k && cycles[|cycles| - 1].restore == k
    requires forall c :: 0 < c < |cycles| ==> cycles[c].alloc != k
    ensures (forall a: int :: Alias(Run(t, cycles).entries, a) == Alias(t.entries, a)) <==>
              StandsAgain(t.entries, cycles)
  {
    var es := Run(t, cycles).entries;
    forall i | 0 <= i < |es|
      ensures es[i].v == t.entries[i].v && es[i].prf == t.entries[i].prf
      ensures es[i].arf == StagedArf(t.entries[i].arf, cycles, i)
    {
      CheckpointKeepsMapping(t, cycles, k, i);
      ArfIsStaged(t, cycles, i);
    }
    SameAliases(t.entries, es);
  }

  // ---- A run that fails -----------------------------------------------------------------------------

  /** The alias table with the scoreboard it consults. */
  datatype Machine = Machine(table: Table, board: Board)

  /** The cycle in which register `touch` is touched (0 for none) and physical register `commit` is committed (-1
      for none), with the given checkpoint requests. */
  ghost function CycleOf(m: Machine, touch: int, commit: int, alloc: int, restore: int): Cycle
    requires m.table.Valid() && |m.board.busy| == |m.table.entries| && commit < |m.table.entries|
  {
    var touched := m.table.Touch(true, touch).table;
    Cycle((if commit >= 0 then touched.Commit(m.board.busy, commit) else touched).mods, alloc, restore)
  }

  /** The table and the scoreboard go through one cycle of calls, which is cycle c for the table: a register touched
      takes off, one committed lands. */
  ghost predicate Drives(m: Machine, touch: int, commit: int, alloc: int, restore: int, c: Cycle, r: Machine) {
    && m.table.Valid() && m.board.Valid() && |m.board.busy| == |m.table.entries|
    && -1 <= commit < |m.table.entries| && -1 <= alloc < |m.table.cks| && -1 <= restore < |m.table.cks|
    && c == CycleOf(m, touch, commit, alloc, restore) && Advances(m.table, c, r.table)
    && var prf := m.table.Touch(true, touch).prf;
       var taken := if prf.Some? then m.board.TakeOff(prf.value) else m.board;
       r.board == (if commit >= 0 then taken.Land(commit) else taken).Next()
  }

  /** The two entries, the busy bits and the V bits of the checkpoint. */
  ghost predicate Looks(m: Machine, es: seq<Entry>, busy: seq<bool>, saved: seq<bool>) {
    && m.table.Valid() && m.table.Idle() && m.board.Valid() && m.board.Idle() && |es| == |saved| == 2
    && m.table.entries == es && m.board.busy == busy
    && |m.table.cks| == 1 && m.table.cks[0][0] == saved[0] && m.table.cks[0][1] == saved[1]
  }

  /** From reset, register a is mapped to entry 0, which then commits. */
  lemma MapFirst(a: int) returns (m: Machine, c0: Cycle, n: Machine, c1: Cycle, r: Machine)
    requires a != 0
    ensures m == Machine(ResetTable(2, 1), Reset(2, 0))
    ensures Drives(m, a, -1, -1, -1, c0, n) && Drives(n, 0, 0, -1, -1, c1, r)
    ensures Looks(r, [Entry(true, 0, a, true), Entry(false, 1, 0, false)], [false, false], [false, false])
  {
    m := Machine(ResetTable(2, 1), Reset(2, 0));
    assert FreeIndex(m.table.entries, 0) == 0 && AliasIndex(m.table.entries, a, 0) == -1;
    c0 := CycleOf(m, a, -1, -1, -1);
    n := Machine(Advance(m.table, c0), m.board.TakeOff(0).Next());
    assert Looks(n, [Entry(true, 0, a, true), Entry(false, 1, 0, false)], [true, false], [false, false]);
    c1 := CycleOf(n, 0, 0, -1, -1);
    r := Machine(Advance(n.table, c1), n.board.Land(0).Next());
  }

  /** The checkpoint is allocated while a is touched again, which claims entry 1; its commit releases entry 0. */
  lemma MapSecond(a: int, m: Machine) returns (c0: Cycle, n: Machine, c1: Cycle, r: Machine)
    requires a != 0
    requires Looks(m, [Entry(true, 0, a, true), Entry(false, 1, 0, false)], [false, false], [false, false])
    ensures Drives(m, a, -1, 0, -1, c0, n) && Drives(n, 0, 1, -1, -1, c1, r)
    ensures Looks(r, [Entry(false, 0, a, false), Entry(true, 1, a, true)], [false, false], [true, false])
  {
    assert FreeIndex(m.table.entries, 0) == 1 && AliasIndex(m.table.entries, a, 0) == 0;
    c0 := CycleOf(m, a, -1, 0, -1);
    n := Machine(Advance(m.table, c0), m.board.TakeOff(1).Next());
    assert Looks(n, [Entry(true, 0, a, false), Entry(true, 1, a, true)], [false, true], [true, false]);
    c1 := CycleOf(n, 0, 1, -1, -1);
    r := Machine(Advance(n.table, c1), n.board.Land(1).Next());
  }

  /** Register b claims entry 0, and the checkpoint is restored. */
  lemma ReuseAndRestore(a: int, b: int, m: Machine) returns (c0: Cycle, n: Machine, c1: Cycle, r: Machine)
    requires a != 0 && b != 0 && a != b
    requires Looks(m, [Entry(false, 0, a, false), Entry(true, 1, a, true)], [false, false], [true, false])
    ensures Drives(m, b, -1, -1, -1, c0, n) && Drives(n, 0, -1, -1, 0, c1, r)
    ensures r.table.entries == [Entry(true, 0, b, true), Entry(true, 1, a, false)]
  {
    assert FreeIndex(m.table.entries, 0) == 0 && AliasIndex(m.table.entries, b, 0) == -1;
    c0 := CycleOf(m, b, -1, -1, -1);
    n := Machine(Advance(m.table, c0), m.board.TakeOff(0).Next());
    assert Looks(n, [Entry(true, 0, b, true), Entry(true, 1, a, true)], [true, false], [true, false]);
    c1 := CycleOf(n, 0, -1, -1, 0);
    r := Machine(Advance(n.table, c1), n.board.Next());
  }

  ghost predicate Advances(t: Table, c: Cycle, r: Table) {
    t.Valid() && CycleFits(c, |t.entries|, |t.cks|) && r == Advance(t, c)
  }

  ghost predicate Chain(ts: seq<Table>, cycles: seq<Cycle>) {
    |ts| == |cycles| + 1 &&
    forall c {:trigger cycles[c]} :: 0 <= c < |cycles| ==> Advances(ts[c], cycles[c], ts[c + 1])
  }

  /** The tables that follow each other cycle by cycle are a run. */
  lemma {:induction false} ChainRuns(ts: seq<Table>, cycles: seq<Cycle>, n: nat)
    requires Chain(ts, cycles) && n <= |cycles| && ts[0].Valid() && ts[0].Idle()
    requires AllFit(cycles, |ts[0].entries|, |ts[0].cks|)
    ensures ts[n] == Run(ts[0], cycles[..n])
  {
    if n > 0 {
      ChainRuns(ts, cycles, n - 1);
      assert cycles[..n][..n - 1] == cycles[..n - 1];
      assert Advances(ts[n - 1], cycles[n - 1], ts[n]);
    }
  }

  lemma Lost(a: int, b: int, ts: seq<Table>, cycles: seq<Cycle>)
    requires a != 0 && a != b && Chain(ts, cycles) && |cycles| == 4 && AllFit(cycles, 2, 1)
    requires ts[0].Valid() && ts[0].Idle() && |ts[0].cks| == 1
    requires ts[0].entries == [Entry(true, 0, a, true), Entry(false, 1, 0, false)]
    requires ts[4].entries == [Entry(true, 0, b, true), Entry(true, 1, a, false)]
    requires cycles[0].alloc == 0 && cycles[3].restore == 0
    requires cycles[1].alloc == cycles[2].alloc == cycles[3].alloc == -1
    ensures ts[4] == Run(ts[0], cycles) && Unambiguous(ts[0].entries)
    ensures Alias(ts[0].entries, a) == 0 && Alias(ts[4].entries, a) == -1
    ensures !StandsAgain(ts[0].entries, cycles)
  {
    ChainRuns(ts, cycles, 4);
    assert cycles[..4] == cycles;
    assert AliasIndex(ts[0].entries, a, 0) == 0 && AliasIndex(ts[4].entries, a, 0) == -1;
    RecoveredExactly(ts[0], cycles, 0);
  }

  /** From table t the given cycles, the first of which allocates the checkpoint and the last of which restores it,
      lead to table r, and register a, mapped to entry 0 before, is mapped nowhere after: entry 0 does not stand
      under its old number again. */
  ghost predicate Loses(a: int, t: Table, cycles: seq<Cycle>, r: Table) {
    && t.Valid() && t.Idle() && AllFit(cycles, |t.entries|, |t.cks|) && Unambiguous(t.entries)
    && cycles != [] && cycles[0].alloc == 0 && cycles[|cycles| - 1].restore == 0
    && r == Run(t, cycles) && Alias(t.entries, a) == 0 && Alias(r.entries, a) == -1
    && !StandsAgain(t.entries, cycles)
  }

  /** The run from the allocation on: a is touched again, which claims entry 1; that commits, which releases entry
      0; register b claims entry 0; and the last cycle restores. */
  lemma LostAfter(a: int, b: int, m: Machine) returns (ns: seq<Machine>, cycles: seq<Cycle>)
    requires a != 0 && b != 0 && a != b
    requires Looks(m, [Entry(true, 0, a, true), Entry(false, 1, 0, false)], [false, false], [false, false])
    ensures |ns| == |cycles| == 4
    ensures Drives(m, a, -1, 0, -1, cycles[0], ns[0]) && Drives(ns[0], 0, 1, -1, -1, cycles[1], ns[1])
    ensures Drives(ns[1], b, -1, -1, -1, cycles[2], ns[2]) && Drives(ns[2], 0, -1, -1, 0, cycles[3], ns[3])
    ensures Loses(a, m.table, cycles, ns[3].table)
  {
    var c0, n0, c1, n1 := MapSecond(a, m);
    var c2, n2, c3, n3 := ReuseAndRestore(a, b, n1);
    ns, cycles := [n0, n1, n2, n3], [c0, c1, c2, c3];
    Lost(a, b, [m.table, n0.table, n1.table, n2.table, n3.table], cycles);
  }

  /** Recovery fails once an instruction younger than the checkpoint has committed and the register it superseded
      is claimed again: from reset, two cycles map a and commit it, and the run above loses it. */
  lemma ReleasedIsLost(a: int, b: int) returns (m0: Machine, c0: Cycle, m1: Machine, c1: Cycle, m2: Machine,
                                                ns: seq<Machine>, cycles: seq<Cycle>)
    requires a != 0 && b != 0 && a != b
    ensures m0 == Machine(ResetTable(2, 1), Reset(2, 0))
    ensures Drives(m0, a, -1, -1, -1, c0, m1) && Drives(m1, 0, 0, -1, -1, c1, m2)
    ensures |ns| == |cycles| == 4
    ensures Drives(m2, a, -1, 0, -1, cycles[0], ns[0]) && Drives(ns[0], 0, 1, -1, -1, cycles[1], ns[1])
    ensures Drives(ns[1], b, -1, -1, -1, cycles[2], ns[2]) && Drives(ns[2], 0, -1, -1, 0, cycles[3], ns[3])
    ensures Loses(a, m2.table, cycles, ns[3].table)
  {
    m0, c0, m1, c1, m2 := MapFirst(a);
    ns, cycles := LostAfter(a, b, m2);
  }
}
