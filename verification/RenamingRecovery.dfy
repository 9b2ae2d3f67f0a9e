/** Checkpoint recovery and the capacity of the renaming machine. */
module RenamingRecovery {
  import opened Wrappers
  import opened Instructions
  import opened AliasTables
  import opened Renaming
  import opened RenamingCycle
  import opened RenamingTheorems
  import opened Occupancy

  // ---- Checkpoint recovery ------------------------------------------------------------------

  /** The run does not allocate checkpoint `k` again and restores only checkpoints that were taken
      at a history of at least `m` instructions. */
  ghost predicate Keeps(s: Core, steps: seq<Step>, k: nat, m: nat)
    requires Run(s, steps).Some?
    decreases |steps|
  {
    steps == [] ||
    ( && (steps[0].Cycle? ==>
            && steps[0].i.alloc != k
            && (steps[0].i.restore != -1 ==> MarkOf(s, steps[0].i, steps[0].i.restore).value >= m))
      && Keeps(After(s, steps[0]), steps[1..], k, m))
  }

  /** Checkpoint k stands for the history h, which is still a prefix of the current one. */
  ghost predicate Stands(s: Core, k: nat, h: seq<Flight>) {
    k < |s.marks| && s.marks[k] == Some(|h|) && h <= s.hist
  }

  lemma StandsAfterCycle(s: Core, i: Input, k: nat, h: seq<Flight>)
    requires Inv(s) && Legal(s, i) && (i.restore != -1 ==> MarkOf(s, i, i.restore).value >= |h|)
    requires k < |s.marks| && MarkOf(s, i, k) == Some(|h|) && h <= s.hist
    ensures Fits(s, i) && Stands(Clock(s, i), k, h)
  {
    InvFits(s, i);
  }

  lemma StandsAfterStep(s: Core, step: Step, k: nat, h: seq<Flight>)
    requires Inv(s) && Allowed(s, step) && Stands(s, k, h)
    requires step.Cycle? ==> step.i.alloc != k
    requires step.Cycle? && step.i.restore != -1 ==> MarkOf(s, step.i, step.i.restore).value >= |h|
    ensures Stands(After(s, step), k, h)
  {
    if step.Cycle? { StandsAfterCycle(s, step.i, k, h); }
  }

  lemma {:induction false} StandsAfterRun(s: Core, steps: seq<Step>, k: nat, h: seq<Flight>)
    requires Inv(s) && Run(s, steps).Some? && Stands(s, k, h) && Keeps(s, steps, k, |h|)
    ensures Stands(Run(s, steps).value, k, h)
    decreases |steps|
  {
    if steps != [] {
      StepInv(s, steps[0]);
      StandsAfterStep(s, steps[0], k, h);
      StandsAfterRun(After(s, steps[0]), steps[1..], k, h);
    }
  }

  /** From state s, cycle `first` allocates checkpoint k and the given steps lead on to state t; nothing older
      than that checkpoint is restored on the way, and it is not allocated again. */
  ghost predicate Between(s: Core, first: Input, steps: seq<Step>, t: Core, k: nat) {
    && Allowed(s, Cycle(first)) && first.alloc == k < |s.marks|
    && (first.restore != -1 ==> MarkOf(s, first, first.restore).value >= |s.hist|)
    && Run(Clock(s, first), steps) == Some(t)
    && Keeps(Clock(s, first), steps, k, |s.hist|)
  }

  /** The cycle `last` restores checkpoint k, which stands for the first n instructions, and is otherwise a legal
      one after which only these may have committed. If it synchronises NRA too, all of them have. */
  ghost predicate Restores(t: Core, last: Input, k: nat, n: nat) {
    && Sized(t) && k < |t.marks| && last.alloc != k && last.restore == k
    && Legal(t, last.(restore := -1, sync := false))
    && t.c + (if last.commit then 1 else 0) <= n
    && (last.sync ==> last.rename.None? && !last.commit && t.c == n)
  }

  /** In every run: checkpoint k is allocated in cycle `first` and restored in cycle `last`, after any
      steps that restore nothing older. If only instructions in flight when the allocating cycle began
      have committed by the end of the restoring one, that restore is legal, also together with an NRA
      synchronisation, and it brings back the mapping of every architectural register, although only V bits
      were saved. */
  lemma CheckpointRecovery(size: nat, checkpoints: nat, before: seq<Step>, s: Core,
                           first: Input, between: seq<Step>, t: Core, last: Input, k: nat, a: nat)
    requires Reaches(size, checkpoints, before, s)
    requires Between(s, first, between, t, k) && Restores(t, last, k, |s.hist|)
    ensures Allowed(t, Cycle(last))
    ensures Clock(t, last).hist == s.hist
    ensures Alias(Clock(t, last).rat.entries, a) == Alias(s.rat.entries, a)
  {
    ReachedInv(size, checkpoints, before, s);
    RecoveryInv(s, first, between, t, last, k);
    SameMapping(s, Clock(t, last), a);
  }

  lemma RecoveryInv(s: Core, first: Input, between: seq<Step>, t: Core, last: Input, k: nat)
    requires Inv(s) && Between(s, first, between, t, k) && Restores(t, last, k, |s.hist|)
    ensures Allowed(t, Cycle(last)) && Inv(Clock(t, last)) && Clock(t, last).hist == s.hist
  {
    StandsAfterCycle(s, first, k, s.hist);
    ClockInv(s, first);
    StandsAfterRun(Clock(s, first), between, k, s.hist);
    RunInv(Clock(s, first), between);
    RestoreIsRecovery(t, last, k, s.hist);
    ClockInv(t, last);
  }

  /** The simplest squash: the reset machine allocates checkpoint 0 and renames an instruction in one cycle,
      which maps its destination, and restores the checkpoint in the next, which unmaps it. */
  lemma RecoveryUndoesRename(size: nat, checkpoints: nat, insn: Insn)
    requires size > 0 && checkpoints > 0 && insn.dst != 0
    ensures var s := Initial(size, checkpoints);
            var first, last := Input(Some(insn), false, 0, -1, false), Input(None, false, -1, 0, false);
            && Allowed(s, Cycle(first))
            && var t := Clock(s, first);
            && Reaches(size, checkpoints, [], s) && Between(s, first, [], t, 0) && Restores(t, last, 0, |s.hist|)
            && Alias(t.rat.entries, insn.dst) == 0
            && Allowed(t, Cycle(last)) && Alias(Clock(t, last).rat.entries, insn.dst) == -1
  {
    var s := Initial(size, checkpoints);
    var first, last := Input(Some(insn), false, 0, -1, false), Input(None, false, -1, 0, false);
    var t := Clock(s, first);
    InitialInv(size, checkpoints);
    assert FreeIndex(s.rat.entries, 0) == 0;
    assert Alias(s.rat.entries, insn.dst) == -1;
    ClockInv(s, first);
    AliasIsLastWriter(t.rat.entries, t.sb.busy, t.sh.entries, t.hist, t.c, insn.dst);
    assert t.hist == [Flight(insn, 0, Alias(s.rat.entries, insn.src1), Alias(s.rat.entries, insn.src2))];
    assert LastWriter(t.hist, 1, insn.dst) == 0;
    CheckpointRecovery(size, checkpoints, [], s, first, [], t, last, 0, insn.dst);
  }

  lemma RestoreIsRecovery(t: Core, last: Input, k: nat, h: seq<Flight>)
    requires Inv(t) && Stands(t, k, h) && Restores(t, last, k, |h|)
    ensures Legal(t, last) && Fits(t, last) && Clock(t, last).hist == h
  {
    assert Legal(t, last);
    InvFits(t, last);
    RestoreHistory(t, last);
    RenameHistory(t, last);
    SameHistory(t, last);
  }

  /** The mapping depends on the history alone. */
  lemma SameMapping(s: Core, t: Core, a: nat)
    requires Inv(s) && Inv(t) && s.hist == t.hist
    ensures Alias(s.rat.entries, a) == Alias(t.rat.entries, a)
  {
    AliasIsLastWriter(s.rat.entries, s.sb.busy, s.sh.entries, s.hist, s.c, a);
    AliasIsLastWriter(t.rat.entries, t.sb.busy, t.sh.entries, t.hist, t.c, a);
  }

  // ---- A run of one instruction ---------------------------------------------------------------------

  /** Renaming an instruction on the reset machine. */
  lemma RenameFirst(size: nat, checkpoints: nat, insn: Insn)
    requires size > 0 && insn.dst != 0
    ensures var s, step := Initial(size, checkpoints), Cycle(Input(Some(insn), false, -1, -1, false));
            && Inv(s) && Allowed(s, step)
            && var t := After(s, step);
            Inv(t) && t.hist == [Flight(insn, 0, -1, -1)] && t.c == 0 && t.marks == s.marks
  {
    var s, i := Initial(size, checkpoints), Input(Some(insn), false, -1, -1, false);
    InitialInv(size, checkpoints);
    assert FreeIndex(s.rat.entries, 0) == 0;
    AliasIsLastWriter(s.rat.entries, s.sb.busy, s.sh.entries, s.hist, 0, insn.src1);
    AliasIsLastWriter(s.rat.entries, s.sb.busy, s.sh.entries, s.hist, 0, insn.src2);
    ClockInv(s, i);
  }

  /** Reading both its operands. */
  lemma ReadBoth(s: Core, insn: Insn)
    requires Inv(s) && s.hist == [Flight(insn, 0, -1, -1)] && s.c == 0
    ensures Allowed(s, ReadOperand(0, false)) && Allowed(After(s, ReadOperand(0, false)), ReadOperand(0, true))
    ensures var t := After(After(s, ReadOperand(0, false)), ReadOperand(0, true));
            Inv(t) && t.hist == s.hist && t.c == 0 && t.latch[0].val1.Some? && t.latch[0].val2.Some?
  {
    StepInv(s, ReadOperand(0, false));
    StepInv(After(s, ReadOperand(0, false)), ReadOperand(0, true));
  }

  /** Committing it. */
  lemma CommitFirst(s: Core, insn: Insn)
    requires Inv(s) && s.hist == [Flight(insn, 0, -1, -1)] && s.c == 0
    requires s.latch[0].val1.Some? && s.latch[0].val2.Some?
    ensures var step := Cycle(Input(None, true, -1, -1, false));
            Allowed(s, step) && Inv(After(s, step)) && After(s, step).c == 1 && After(s, step).hist == s.hist
  {
    var i := Input(None, true, -1, -1, false);
    LegalIsAllowed(s, i);
    ClockInv(s, i);
  }

  /** The machine executes: from reset an instruction is renamed, reads its operands and commits, and its destination
      then reads, through the alias table, what the instruction computes from the zeroes there were. */
  lemma ExecutesOne(size: nat, checkpoints: nat, insn: Insn) returns (steps: seq<Step>, s: Core)
    requires size > 0 && insn.dst != 0
    ensures Reaches(size, checkpoints, steps, s) && s.c == |s.hist| == 1 && s.hist[0].insn == insn
    ensures var p := Alias(s.rat.entries, insn.dst); 0 <= p < |s.prf.prfs| && s.prf.prfs[p] == Alu(insn, 0, 0)
  {
    var rename, commit := Cycle(Input(Some(insn), false, -1, -1, false)), Cycle(Input(None, true, -1, -1, false));
    var read1, read2 := ReadOperand(0, false), ReadOperand(0, true);
    var s0 := Initial(size, checkpoints);
    RenameFirst(size, checkpoints, insn);
    var s1 := After(s0, rename);
    ReadBoth(s1, insn);
    var s2 := After(s1, read1);
    var s3 := After(s2, read2);
    CommitFirst(s3, insn);
    s := After(s3, commit);
    StepBefore(s3, commit, s, [], s);
    StepBefore(s2, read2, s3, [commit] + [], s);
    StepBefore(s1, read1, s2, [read2] + ([commit] + []), s);
    steps := [rename] + ([read1] + ([read2] + ([commit] + [])));
    StepBefore(s0, rename, s1, [read1] + ([read2] + ([commit] + [])), s);
    FirstResult(s, insn);
  }

  lemma StepBefore(s: Core, step: Step, t: Core, rest: seq<Step>, r: Core)
    requires Allowed(s, step) && t == After(s, step) && Run(t, rest) == Some(r)
    ensures Run(s, [step] + rest) == Some(r)
  {
    assert ([step] + rest)[1..] == rest;
  }

  lemma FirstResult(s: Core, insn: Insn)
    requires Inv(s) && s.hist == [Flight(insn, 0, -1, -1)] && s.c == 1 && insn.dst != 0
    ensures var p := Alias(s.rat.entries, insn.dst); 0 <= p < |s.prf.prfs| && s.prf.prfs[p] == Alu(insn, 0, 0)
  {
    QuietRead(s, insn.dst);
    AliasIsLastWriter(s.rat.entries, s.sb.busy, s.sh.entries, s.hist, s.c, insn.dst);
    assert LastWriter(s.hist, 1, insn.dst) == 0;
    assert Insns(s.hist) == [] + [insn];
    RunInOrder([], insn);
  }

  // ---- Capacity ---------------------------------------------------------------------------------

  lemma {:induction false} WriterNumber(h: seq<Flight>, n: nat, a: int, regs: nat)
    requires n <= |h| && LastWriter(h, n, a) != -1 && forall k :: 0 <= k < |h| ==> h[k].insn.dst < regs
    ensures 1 <= a < regs
  {
    if n > 0 && h[n - 1].insn.dst != a { WriterNumber(h, n - 1, a, regs); }
  }

  /** Without un-synchronised squashes at most one register is kept per instruction in flight and
      one per architectural register other than 0. */
  lemma KeptBound(s: Core, regs: nat)
    requires Inv(s) && s.clean && regs > 0
    requires forall k :: 0 <= k < |s.hist| ==> s.hist[k].insn.dst < regs
    ensures |Kept(s.rat.entries)| <= (|s.hist| - s.c) + (regs - 1)
  {
    var h, c := s.hist, s.c;
    var writes := (k: int) => if 0 <= k < |h| then h[k].dst else -1;
    var homes := (a: int) => LastWriter(h, c, a);
    var pending := set k | c <= k < |h| :: writes(k);
    var committed := set a | 1 <= a < regs :: homes(a);
    ImageBound(writes, c, |h|);
    ImageBound(homes, 1, regs);
    forall i | i in Kept(s.rat.entries) ensures i in pending + committed {
      if s.sb.busy[i] {
        var k :| c <= k < |h| && h[k].dst == i;
        assert writes(k) == i;
      } else {
        var a := s.sh.entries[i].arf;
        assert homes(a) == i;
        WriterNumber(h, c, a, regs);
      }
    }
    SubsetBound(Kept(s.rat.entries), pending + committed);
  }

  /** With more physical registers than that, a touch always finds one and the table is never full. */
  lemma AlwaysRoom(s: Core, regs: nat, insn: Insn)
    requires Inv(s) && s.clean && regs > 0
    requires forall k :: 0 <= k < |s.hist| ==> s.hist[k].insn.dst < regs
    requires (|s.hist| - s.c) + (regs - 1) < |s.rat.entries|
    ensures FreeIndex(s.rat.entries, 0) >= 0 && s.rat.Touch(true, insn.dst).ok
    ensures !Full(s.rat.entries)
  {
    KeptBound(s, regs);
    var es := s.rat.entries;
    if Full(es) {
      KeptWhenFull(es, |es|);
      assert false;
    }
  }

  const EMULATED_ARF_SIZE := 32
  const EMULATED_PRF_SIZE := 96
  const EMULATED_ROB_SIZE := 32

  /** The sizes of the design: in every run, whenever no squash is un-synchronised, a full reorder
      buffer still leaves a register for the next instruction. */
  lemma DesignNeverFull(checkpoints: nat, steps: seq<Step>, s: Core, insn: Insn)
    requires Reaches(EMULATED_PRF_SIZE, checkpoints, steps, s)
    requires s.clean && |s.hist| - s.c <= EMULATED_ROB_SIZE
    requires forall k :: 0 <= k < |s.hist| ==> s.hist[k].insn.dst < EMULATED_ARF_SIZE
    ensures s.rat.Valid() && s.rat.Touch(true, insn.dst).ok && !Full(s.rat.entries)
  {
    ReachedInv(EMULATED_PRF_SIZE, checkpoints, steps, s);
    AlwaysRoom(s, EMULATED_ARF_SIZE, insn);
  }
}
