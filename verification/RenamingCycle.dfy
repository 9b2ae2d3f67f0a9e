/** One clock cycle does what its requests do one after the other, and keeps the invariant. */
module RenamingCycle {
  import opened Wrappers
  import opened RegisterFiles
  import opened Scoreboards
  import opened AliasEntries
  import opened AliasTables
  import opened ShadowTables
  import opened Renaming
  import opened RenamingSteps

  // ---- The serial execution of a cycle ---------------------------------------------------

  /** A legal cycle of a well-formed machine whose committing instruction names a register. */
  ghost predicate Fits(s: Core, i: Input) {
    && Sized(s) && Legal(s, i)
    && (forall k :: 0 <= k < |s.marks| && s.marks[k].Some? ==> s.marks[k].value <= |s.hist|)
    && (i.commit ==> -1 <= s.hist[s.c].dst < |s.rat.entries|
                     && (s.hist[s.c].dst >= 0 ==> s.hist[s.c].insn.dst != 0))
  }

  ghost function AfterAllocate(s: Core, i: Input): (r: Core)
    requires Fits(s, i)
    ensures Sized(r) && r.hist == s.hist && r.c == s.c && r.latch == s.latch && |r.marks| == |s.marks|
    ensures |r.rat.entries| == |s.rat.entries|
    ensures forall k :: 0 <= k < |s.marks| ==> r.marks[k] == MarkOf(s, i, k)
  {
    if i.alloc == -1 then s else Allocated(s, i.alloc)
  }

  ghost function AfterRename(s: Core, i: Input): (r: Core)
    requires Fits(s, i)
    ensures Sized(r) && s.hist <= r.hist && r.c == s.c && s.latch <= r.latch && |r.marks| == |s.marks|
    ensures |r.rat.entries| == |s.rat.entries|
    ensures forall k :: 0 <= k < |s.marks| ==> r.marks[k] == MarkOf(s, i, k)
    ensures i.rename.None? ==> r.hist == s.hist
  {
    var a := AfterAllocate(s, i);
    if i.rename.Some? && CanRename(a, i.rename.value) then Renamed(a, i.rename.value) else a
  }

  ghost function AfterCommit(s: Core, i: Input): (r: Core)
    requires Fits(s, i)
    ensures Sized(r) && r.hist == AfterRename(s, i).hist && r.c == (if i.commit then s.c + 1 else s.c)
    ensures r.marks == AfterRename(s, i).marks
  {
    var a := AfterRename(s, i);
    if i.commit then CommittedOne(a) else a
  }

  ghost function AfterRestore(s: Core, i: Input): (r: Core)
    requires Fits(s, i)
    ensures Sized(r) && r.c == (if i.commit then s.c + 1 else s.c)
    ensures i.sync ==> r.c == |r.hist|
  {
    var a := AfterCommit(s, i);
    if i.restore == -1 then a else Restored(a, i.restore)
  }

  ghost function Serial(s: Core, i: Input): (r: Core)
    requires Fits(s, i)
    ensures Sized(r)
  {
    var a := AfterRestore(s, i);
    if i.sync then Synced(a) else a
  }

  lemma InvFits(s: Core, i: Input)
    requires Inv(s) && Legal(s, i)
    ensures Fits(s, i)
  {
    if i.commit { assert Holds(s.rat.entries, s.sb.busy, s.hist[s.c]); }
  }

  /** The serial execution of a legal cycle keeps the invariant. */
  lemma SerialInv(s: Core, i: Input)
    requires Inv(s) && Legal(s, i)
    ensures Fits(s, i) && Inv(Serial(s, i))
  {
    InvFits(s, i);
    assert Inv(AfterAllocate(s, i)) by { if i.alloc != -1 { AllocatedInv(s, i.alloc); } }
    var a := AfterAllocate(s, i);
    assert Inv(AfterRename(s, i)) by {
      if i.rename.Some? && CanRename(a, i.rename.value) { RenamedInv(a, i.rename.value); }
    }
    var b := AfterRename(s, i);
    assert Inv(AfterCommit(s, i)) by { if i.commit { CommittedInv(b); } }
    var d := AfterCommit(s, i);
    assert Inv(AfterRestore(s, i)) by { if i.restore != -1 { RestoredInv(d, i.restore); } }
    if i.sync { SyncedInv(AfterRestore(s, i)); }
  }

  // ---- A cycle is its serial execution ---------------------------------------------------

  lemma FreeIsIdle(s: Core, t: nat)
    requires Inv(s) && t < |s.rat.entries| && !s.rat.entries[t].nra
    ensures !s.sb.busy[t]
    ensures forall k :: s.c <= k < |s.hist| ==> s.hist[k].dst != t
  {
    BusyIsPending(s.rat.entries, s.sb.busy, s.hist, s.c, t);
    forall k | s.c <= k < |s.hist| ensures s.hist[k].dst != t {
      assert Holds(s.rat.entries, s.sb.busy, s.hist[k]);
    }
  }

  /** The alias entries after a touch of entry `t` and a commit of entry `p`: remapped and released. */
  ghost function Reassigned(es: seq<Entry>, busy: seq<bool>, arf: nat, t: int, p: int): (r: seq<Entry>)
    requires |busy| == |es| && -1 <= t < |es| && -1 <= p < |es|
    ensures |r| == |es|
  {
    var es' := if t >= 0 then Remapped(es, arf, t) else es;
    var busy' := if t >= 0 then busy[t := true] else busy;
    if p >= 0 then Released(es', busy', es'[p].arf) else es'
  }

  /** What a touch stages for entry j, when it takes entry `index`. */
  lemma TouchedEntry(t: Table, arf: nat, index: nat, j: nat)
    requires t.Valid() && t.Idle() && arf != 0 && index == FreeIndex(t.entries, 0) && j < |t.entries|
    ensures var m := t.Touch(true, arf).table.mods[j];
            && m.Apply(t.entries[j]) == Remapped(t.entries, arf, index)[j]
            && (if j == index then m.nra == Some(true) else m.nra.None?)
  {
  }

  /** The staged touch and commit, applied together, equal remapping followed by releasing. */
  lemma StagedEntry(t: Table, busy: seq<bool>, arf: nat, index: int, p: int, j: nat)
    requires t.Valid() && t.Idle() && |busy| == |t.entries| && j < |t.entries|
    requires var k := t.Touch(true, arf); index == if k.prf.Some? then k.prf.value else -1
    requires index >= 0 ==> !busy[index] && index != p
    requires -1 <= p < |busy| && (p >= 0 ==> busy[p])
    ensures var touched := t.Touch(true, arf).table;
            var staged := if p >= 0 then touched.Commit(busy, p) else touched;
            staged.mods[j].Apply(t.entries[j]) == Reassigned(t.entries, busy, arf, index, p)[j]
  {
    if index >= 0 {
      TouchedEntry(t, arf, index, j);
      if p >= 0 { TouchedEntry(t, arf, index, p); }
    }
  }

  /** The physical registers a cycle takes and completes (-1 for none). */
  ghost function Taken(s: Core, i: Input): int
    requires Sized(s)
  {
    var arf := if i.rename.Some? then i.rename.value.dst else 0;
    var k := s.rat.Touch(true, arf);
    if k.prf.Some? then k.prf.value else -1
  }

  ghost function Done(s: Core, i: Input): int
    requires Sized(s) && Legal(s, i)
  {
    if i.commit then s.hist[s.c].dst else -1
  }

  /** What the staged calls of a cycle may rely on: the register taken was free and the register
      completed is busy, mapped to the destination of the committing instruction. */
  ghost predicate Apart(s: Core, i: Input)
    requires Fits(s, i)
  {
    var t, p := Taken(s, i), Done(s, i);
    && (t >= 0 ==> !s.sb.busy[t] && t != p)
    && (p >= 0 ==> s.sb.busy[p])
  }

  lemma InvApart(s: Core, i: Input)
    requires Inv(s) && Legal(s, i)
    ensures Fits(s, i) && Apart(s, i)
  {
    InvFits(s, i);
    if Taken(s, i) >= 0 { FreeIsIdle(s, Taken(s, i)); }
    if i.commit { assert Holds(s.rat.entries, s.sb.busy, s.hist[s.c]); }
  }

  // The state the serial execution reaches, one request at a time.

  lemma RenameStage(s: Core, i: Input)
    requires Fits(s, i)
    ensures var a, b, t := AfterAllocate(s, i), AfterRename(s, i), Taken(s, i);
            && b.rat.entries == (if t >= 0 then Remapped(s.rat.entries, i.rename.value.dst, t) else s.rat.entries)
            && b.sb.busy == (if t >= 0 then s.sb.busy[t := true] else s.sb.busy)
            && b.rat.cks == a.rat.cks && b.sb.cks == a.sb.cks && b.sh == s.sh && b.prf == s.prf
  {
  }

  lemma CommitStage(s: Core, i: Input)
    requires Fits(s, i)
    ensures var a, b, p := AfterRename(s, i), AfterCommit(s, i), Done(s, i);
            && b.rat.entries == (if p >= 0 then Released(a.rat.entries, a.sb.busy, a.rat.entries[p].arf)
                                 else a.rat.entries)
            && b.sb.busy == (if p >= 0 then a.sb.busy[p := false] else a.sb.busy)
            && b.rat.cks == a.rat.cks && |b.sb.cks| == |a.sb.cks|
            && (forall k :: 0 <= k < |a.sb.cks| ==>
                  b.sb.cks[k] == if p >= 0 then a.sb.cks[k][p := false] else a.sb.cks[k])
  {
  }

  lemma RestoreStage(s: Core, i: Input)
    requires Fits(s, i)
    ensures var a, b, r := AfterCommit(s, i), AfterRestore(s, i), Serial(s, i);
            && b.rat.entries == (if i.restore >= 0 then Revalidated(a.rat.entries, a.rat.cks[i.restore])
                                 else a.rat.entries)
            && r.rat.cks == a.rat.cks && r.sb.cks == a.sb.cks && r.sh == a.sh && r.prf == a.prf
            && r.sb.busy == (if i.restore >= 0 then a.sb.cks[i.restore] else a.sb.busy)
            && |r.rat.entries| == |b.rat.entries| == |b.sh.entries| && b.sh == a.sh
            && forall j :: 0 <= j < |b.rat.entries| ==>
                 r.rat.entries[j] == if i.sync then b.rat.entries[j].(nra := b.sh.entries[j].nra)
                                     else b.rat.entries[j]
  {
  }

  lemma AllocateStage(s: Core, i: Input)
    requires Fits(s, i)
    ensures var a := AfterAllocate(s, i);
            && (forall k, j :: 0 <= k < |s.rat.cks| && 0 <= j < |s.rat.entries| ==>
                  a.rat.cks[k][j] == if k == i.alloc then s.rat.entries[j].v else s.rat.cks[k][j])
            && (forall k, j :: 0 <= k < |s.sb.cks| && 0 <= j < |s.sb.busy| ==>
                  a.sb.cks[k][j] == if k == i.alloc then s.sb.busy[j] else s.sb.cks[k][j])
  {
  }

  /** Those entries, synchronised and revalidated if the cycle asks for it. */
  ghost function Finished(es: seq<Entry>, sync: bool, shadow: seq<bool>,
                          restore: int, cks: seq<seq<bool>>): (r: seq<Entry>)
    requires |shadow| == |es| && -1 <= restore < |cks| && (restore >= 0 ==> |cks[restore]| == |es|)
    ensures |r| == |es|
  {
    seq(|es|, j requires 0 <= j < |es| =>
      var e := if sync then es[j].(nra := shadow[j]) else es[j];
      if restore >= 0 then e.(v := cks[restore][j]) else e)
  }

  lemma StagedNext(t: Table, busy: seq<bool>, arf: nat, index: int, p: int,
                   sync: bool, shadow: seq<bool>, alloc: int, restore: int)
    requires t.Valid() && t.Idle() && |busy| == |t.entries| == |shadow|
    requires -1 <= alloc < |t.cks| && -1 <= restore < |t.cks|
    requires var k := t.Touch(true, arf); index == if k.prf.Some? then k.prf.value else -1
    requires index >= 0 ==> !busy[index] && index != p
    requires -1 <= p < |busy| && (p >= 0 ==> busy[p])
    ensures var touched := t.Touch(true, arf).table;
            var done := if p >= 0 then touched.Commit(busy, p) else touched;
            var staged := (if sync then done.SyncNRA(shadow) else done).(alloc := alloc, restore := restore);
            var cks := t.(alloc := alloc).NextCheckpoints();
            && staged.NextCheckpoints() == cks
            && staged.Next().entries == Finished(Reassigned(t.entries, busy, arf, index, p), sync, shadow, restore, cks)
  {
    var touched := t.Touch(true, arf).table;
    var done := if p >= 0 then touched.Commit(busy, p) else touched;
    var staged := (if sync then done.SyncNRA(shadow) else done).(alloc := alloc, restore := restore);
    var cks := t.(alloc := alloc).NextCheckpoints();
    assert staged.NextCheckpoints() == cks;
    var es' := Finished(Reassigned(t.entries, busy, arf, index, p), sync, shadow, restore, cks);
    forall j | 0 <= j < |es'| ensures staged.Next().entries[j] == es'[j] {
      StagedEntry(t, busy, arf, index, p, j);
    }
  }

  ghost function RenamedRegister(i: Input): nat {
    if i.rename.Some? then i.rename.value.dst else 0
  }

  lemma SameTable(s: Core, i: Input)
    requires Fits(s, i) && Apart(s, i)
    ensures Clock(s, i).rat.cks == Serial(s, i).rat.cks
    ensures Clock(s, i).rat.entries == Serial(s, i).rat.entries
  {
    ClockedTable(s, i);
    SerialEntries(s, i);
  }

  lemma ClockedTable(s: Core, i: Input)
    requires Fits(s, i) && Apart(s, i)
    ensures var c, cks := Clock(s, i).rat, s.rat.(alloc := i.alloc).NextCheckpoints();
            && c.cks == cks
            && c.entries == Finished(Reassigned(s.rat.entries, s.sb.busy, RenamedRegister(i), Taken(s, i), Done(s, i)),
                                     i.sync, s.sh.NraBits(), i.restore, cks)
  {
    var touch := if i.rename.Some? then s.rat.Touch(true, i.rename.value.dst) else Touched(s.rat, false, None);
    assert Clock(s, i).rat == StagedTable(s, i, touch.table, Done(s, i)).Next();
    StagedNext(s.rat, s.sb.busy, RenamedRegister(i), Taken(s, i), Done(s, i), i.sync, s.sh.NraBits(),
               i.alloc, i.restore);
  }

  lemma SerialEntries(s: Core, i: Input)
    requires Fits(s, i)
    ensures var r, cks := Serial(s, i).rat, s.rat.(alloc := i.alloc).NextCheckpoints();
            && r.cks == cks
            && r.entries == Finished(Reassigned(s.rat.entries, s.sb.busy, RenamedRegister(i), Taken(s, i), Done(s, i)),
                                     i.sync, s.sh.NraBits(), i.restore, cks)
  {
    RenameStage(s, i);
    CommitStage(s, i);
    RestoreStage(s, i);
    SerialCheckpoints(s, i);
    var es := Reassigned(s.rat.entries, s.sb.busy, RenamedRegister(i), Taken(s, i), Done(s, i));
    assert AfterCommit(s, i).rat.entries == es;
    var r := Serial(s, i).rat;
    var es' := Finished(es, i.sync, s.sh.NraBits(), i.restore, r.cks);
    forall j | 0 <= j < |es'| ensures r.entries[j] == es'[j] {}
  }

  lemma SerialCheckpoints(s: Core, i: Input)
    requires Fits(s, i)
    ensures Serial(s, i).rat.cks == s.rat.(alloc := i.alloc).NextCheckpoints()
  {
    RenameStage(s, i);
    CommitStage(s, i);
    RestoreStage(s, i);
    AllocateStage(s, i);
    GridEquality(Serial(s, i).rat.cks, s.rat.(alloc := i.alloc).NextCheckpoints());
  }

  /** The board checkpoints and busy bits after a cycle that takes off `t`, lands `p` and may allocate and
      restore checkpoints. */
  ghost function BoardCks(b: Board, p: int, alloc: int): (r: seq<seq<bool>>)
    requires b.Valid()
    ensures |r| == |b.cks| && forall k :: 0 <= k < |r| ==> |r[k]| == |b.busy|
    ensures forall k, j :: 0 <= k < |r| && 0 <= j < |b.busy| ==>
              r[k][j] == ((if k == alloc then b.busy[j] else b.cks[k][j]) && j != p)
  {
    seq(|b.cks|, k requires 0 <= k < |b.cks| =>
      seq(|b.busy|, j requires 0 <= j < |b.busy| => (if k == alloc then b.busy[j] else b.cks[k][j]) && j != p))
  }

  ghost function BoardBusy(b: Board, t: int, p: int, alloc: int, restore: int): (r: seq<bool>)
    requires b.Valid() && -1 <= restore < |b.cks|
    ensures |r| == |b.busy|
  {
    if restore >= 0 then BoardCks(b, p, alloc)[restore]
    else seq(|b.busy|, j requires 0 <= j < |b.busy| => (b.busy[j] || j == t) && j != p)
  }

  ghost predicate BoardAfter(b: Board, t: int, p: int, alloc: int, restore: int, r: Board)
    requires b.Valid() && -1 <= restore < |b.cks|
  {
    r.cks == BoardCks(b, p, alloc) && r.busy == BoardBusy(b, t, p, alloc, restore)
  }

  lemma StagedBoardNext(b: Board, t: int, p: int, alloc: int, restore: int)
    requires b.Valid() && b.Idle() && -1 <= alloc < |b.cks| && -1 <= restore < |b.cks|
    requires -1 <= t < |b.busy| && -1 <= p < |b.busy| && (t >= 0 ==> t != p)
    ensures var taken := if t >= 0 then b.TakeOff(t) else b;
            var landed := if p >= 0 then taken.Land(p) else taken;
            BoardAfter(b, t, p, alloc, restore, landed.(alloc := alloc, restore := restore).Next())
  {
    var taken := if t >= 0 then b.TakeOff(t) else b;
    var landed := if p >= 0 then taken.Land(p) else taken;
    var r := landed.(alloc := alloc, restore := restore).Next();
    GridEquality(r.cks, BoardCks(b, p, alloc));
    assert r.busy == BoardBusy(b, t, p, alloc, restore);
  }

  /** The same, position by position. */
  ghost predicate BoardAt(b: Board, t: int, p: int, alloc: int, restore: int, r: Board)
    requires b.Valid() && -1 <= restore < |b.cks|
  {
    && |r.cks| == |b.cks| && (forall k :: 0 <= k < |r.cks| ==> |r.cks[k]| == |b.busy|)
    && (forall k, j {:trigger r.cks[k][j]} :: 0 <= k < |r.cks| && 0 <= j < |b.busy| ==>
          (r.cks[k][j] <==> (if k == alloc then b.busy[j] else b.cks[k][j]) && j != p))
    && |r.busy| == |b.busy|
    && (restore >= 0 ==> r.busy == r.cks[restore])
    && (restore < 0 ==> forall j :: 0 <= j < |r.busy| ==> (r.busy[j] <==> (b.busy[j] || j == t) && j != p))
  }

  lemma SerialBoardAt(s: Core, i: Input)
    requires Fits(s, i)
    ensures BoardAt(s.sb, Taken(s, i), Done(s, i), i.alloc, i.restore, Serial(s, i).sb)
  {
    RenameStage(s, i);
    CommitStage(s, i);
    RestoreStage(s, i);
    AllocateStage(s, i);
  }

  lemma BoardEquality(b: Board, t: int, p: int, alloc: int, restore: int, r: Board)
    requires b.Valid() && -1 <= restore < |b.cks| && BoardAt(b, t, p, alloc, restore, r)
    ensures BoardAfter(b, t, p, alloc, restore, r)
  {
    var cks := BoardCks(b, p, alloc);
    forall k, j | 0 <= k < |r.cks| && 0 <= j < |r.cks[k]| ensures r.cks[k][j] == cks[k][j] {
      assert j < |b.busy|;
      assert cks[k][j] <==> (if k == alloc then b.busy[j] else b.cks[k][j]) && j != p;
      assert r.cks[k][j] <==> (if k == alloc then b.busy[j] else b.cks[k][j]) && j != p;
    }
    GridEquality(r.cks, cks);
    assert r.busy == BoardBusy(b, t, p, alloc, restore);
  }

  lemma SameBoard(s: Core, i: Input)
    requires Fits(s, i) && Apart(s, i)
    ensures Clock(s, i).sb.cks == Serial(s, i).sb.cks
    ensures Clock(s, i).sb.busy == Serial(s, i).sb.busy
  {
    var t, p := Taken(s, i), Done(s, i);
    SerialBoardAt(s, i);
    BoardEquality(s.sb, t, p, i.alloc, i.restore, Serial(s, i).sb);
    StagedBoardNext(s.sb, t, p, i.alloc, i.restore);
    assert Clock(s, i).sb == StagedBoard(s, i, t, p).Next();
  }

  lemma SameShadow(s: Core, i: Input)
    requires Fits(s, i)
    ensures Clock(s, i).sh.entries == Serial(s, i).sh.entries
  {
    SerialShadow(s, i);
    var p := Done(s, i);
    if p >= 0 {
      StagedShadow(s.sh, p, s.hist[s.c].insn.dst);
    } else {
      assert s.sh.Next().entries == s.sh.entries;
    }
  }

  lemma StagedShadow(sh: Shadow, p: nat, arf: nat)
    requires sh.Valid() && sh.Idle() && p < |sh.entries| && arf != 0
    ensures sh.Commit(p, arf).Next().entries == Shadowed(sh.entries, arf, p)
  {
  }

  lemma SerialShadow(s: Core, i: Input)
    requires Fits(s, i)
    ensures Serial(s, i).sh.entries == if Done(s, i) >= 0
                                       then Shadowed(s.sh.entries, s.hist[s.c].insn.dst, Done(s, i))
                                       else s.sh.entries
  {
    RenameStage(s, i);
    RestoreStage(s, i);
  }

  lemma SerialRegisters(s: Core, i: Input)
    requires Fits(s, i)
    ensures Serial(s, i).prf.prfs == if Done(s, i) >= 0
                                     then s.prf.prfs[Done(s, i) := Result(s.hist[s.c], s.latch[s.c])]
                                     else s.prf.prfs
  {
    RenameStage(s, i);
    RestoreStage(s, i);
  }

  lemma SameRegisters(s: Core, i: Input)
    requires Fits(s, i)
    ensures Clock(s, i).prf.prfs == Serial(s, i).prf.prfs
  {
    SerialRegisters(s, i);
  }

  lemma RenameHistory(s: Core, i: Input)
    requires Fits(s, i)
    ensures var b := AfterRename(s, i);
            var touch := if i.rename.Some? then s.rat.Touch(true, i.rename.value.dst) else Touched(s.rat, false, None);
            && b.hist == (if touch.ok
                          then s.hist + [Flight(i.rename.value, Taken(s, i), Alias(s.rat.entries, i.rename.value.src1),
                                                Alias(s.rat.entries, i.rename.value.src2))]
                          else s.hist)
            && b.latch == (if touch.ok then s.latch + [Latch(None, None)] else s.latch)
            && b.clean == s.clean
  {
  }

  /** The length a history keeps through a cycle. */
  ghost function Length(s: Core, i: Input): int
    requires Fits(s, i)
  {
    if i.restore != -1 then MarkOf(s, i, i.restore).value else |AfterRename(s, i).hist|
  }

  lemma RestoreHistory(s: Core, i: Input)
    requires Fits(s, i)
    ensures var b, r := AfterRename(s, i), Serial(s, i);
            var m := Length(s, i);
            && 0 <= m <= |b.hist| && r.hist == b.hist[..m] && r.latch == b.latch[..m]
            && r.c == (if i.commit then s.c + 1 else s.c)
            && r.clean == (i.sync || (b.clean && m == |b.hist|))
            && |r.marks| == |s.marks|
            && forall k :: 0 <= k < |s.marks| ==>
                 r.marks[k] == if MarkOf(s, i, k).Some? && MarkOf(s, i, k).value <= m then MarkOf(s, i, k) else None
  {
  }

  lemma SameMarks(s: Core, i: Input)
    requires Fits(s, i)
    ensures Clock(s, i).marks == Serial(s, i).marks
  {
    var marks, m := Clock(s, i).marks, Length(s, i);
    assert |marks| == |s.marks| && forall k :: 0 <= k < |s.marks| ==>
      marks[k] == if MarkOf(s, i, k).Some? && MarkOf(s, i, k).value <= m then MarkOf(s, i, k) else None
    by { RenameHistory(s, i); }
    RestoreHistory(s, i);
  }

  lemma SameHistory(s: Core, i: Input)
    requires Fits(s, i)
    ensures var c, r := Clock(s, i), Serial(s, i);
            c.hist == r.hist && c.latch == r.latch && c.c == r.c && c.clean == r.clean && c.marks == r.marks
  {
    SameMarks(s, i);
    RenameHistory(s, i);
    RestoreHistory(s, i);
  }

  /** One clock cycle, in which all staged calls take effect together, leaves exactly the state that
      allocating, renaming, committing, restoring and synchronising one after the other leave. */
  lemma ClockIsSerial(s: Core, i: Input)
    requires Inv(s) && Legal(s, i)
    ensures Fits(s, i) && Clock(s, i) == Serial(s, i).(prf := Clock(s, i).prf)
    ensures Clock(s, i).prf.prfs == Serial(s, i).prf.prfs && Clock(s, i).prf.index < 0
  {
    InvApart(s, i);
    SameTable(s, i);
    SameBoard(s, i);
    SameShadow(s, i);
    SameRegisters(s, i);
    SameHistory(s, i);
    var c, r := Clock(s, i), Serial(s, i);
    IdleTable(c.rat, r.rat);
    IdleBoard(c.sb, r.sb);
    IdleShadow(c.sh, r.sh);
  }

  lemma IdleTable(a: Table, b: Table)
    requires a.Valid() && a.Idle() && b.Valid() && b.Idle() && a.entries == b.entries && a.cks == b.cks
    ensures a == b
  {
    assert a.mods == b.mods;
  }

  lemma IdleBoard(a: Board, b: Board)
    requires a.Valid() && a.Idle() && b.Valid() && b.Idle() && a.busy == b.busy && a.cks == b.cks
    ensures a == b
  {
    assert a.mods == b.mods;
  }

  lemma IdleShadow(a: Shadow, b: Shadow)
    requires a.Valid() && a.Idle() && b.Valid() && b.Idle() && a.entries == b.entries
    ensures a == b
  {
    assert a.mods == b.mods;
  }

  /** Every legal cycle keeps the renaming invariant. */
  lemma ClockInv(s: Core, i: Input)
    requires Inv(s) && Legal(s, i)
    ensures Fits(s, i) && Inv(Clock(s, i))
  {
    ClockIsSerial(s, i);
    SerialInv(s, i);
    ValuesOnly(Serial(s, i), Clock(s, i).prf);
  }

  /** The invariant ignores the data input of a register file with nothing staged. */
  lemma ValuesOnly(s: Core, prf: Registers)
    requires Inv(s) && prf.Valid() && prf.index < 0 && prf.prfs == s.prf.prfs
    ensures Inv(s.(prf := prf))
  {
  }
}
