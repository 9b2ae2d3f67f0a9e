/** What every run of the renaming machine guarantees. */
module RenamingTheorems {
  import opened Wrappers
  import opened Instructions
  import opened AliasEntries
  import opened AliasTables
  import opened Renaming
  import opened RenamingSteps
  import opened RenamingCycle

  // ---- Runs ---------------------------------------------------------------------------------

  datatype Step = ReadOperand(k: nat, second: bool) | Cycle(i: Input)

  /** The protocol allows the step. That a committing instruction names a register of the table is no
      demand on the caller: `LegalIsAllowed` shows it follows in every state the machine can be in. */
  ghost predicate Allowed(s: Core, step: Step) {
    Sized(s) &&
    match step
    case ReadOperand(k, second) => Readable(s, k, second)
    case Cycle(i) => Legal(s, i) && (i.commit ==> -1 <= s.hist[s.c].dst < |s.rat.entries|)
  }

  ghost function After(s: Core, step: Step): Core
    requires Allowed(s, step)
  {
    match step
    case ReadOperand(k, second) => Read(s, k, second)
    case Cycle(i) => Clock(s, i)
  }

  /** The state after the given steps; None if the protocol does not allow one of them. */
  ghost function Run(s: Core, steps: seq<Step>): Option<Core>
    decreases |steps|
  {
    if steps == [] then Some(s)
    else if !Allowed(s, steps[0]) then None
    else Run(After(s, steps[0]), steps[1..])
  }

  /** The steps are a run of the machine from reset that ends in s. */
  ghost predicate Reaches(size: nat, checkpoints: nat, steps: seq<Step>, s: Core) {
    Run(Initial(size, checkpoints), steps) == Some(s)
  }

  lemma LegalIsAllowed(s: Core, i: Input)
    requires Inv(s) && Legal(s, i)
    ensures Allowed(s, Cycle(i))
  {
    InvFits(s, i);
  }

  lemma StepInv(s: Core, step: Step)
    requires Inv(s) && Allowed(s, step)
    ensures Inv(After(s, step)) && |After(s, step).rat.entries| == |s.rat.entries|
  {
    match step
    case ReadOperand(k, second) =>
      OperandValue(s, k, s.hist[k].insn.src1);
      OperandValue(s, k, s.hist[k].insn.src2);
    case Cycle(i) => ClockInv(s, i);
  }

  /** Every run keeps the invariant. */
  lemma {:induction false} RunInv(s: Core, steps: seq<Step>)
    requires Inv(s) && Run(s, steps).Some?
    ensures Inv(Run(s, steps).value) && |Run(s, steps).value.rat.entries| == |s.rat.entries|
    decreases |steps|
  {
    if steps != [] {
      StepInv(s, steps[0]);
      RunInv(After(s, steps[0]), steps[1..]);
    }
  }

  lemma ReachedInv(size: nat, checkpoints: nat, steps: seq<Step>, s: Core)
    requires Reaches(size, checkpoints, steps, s)
    ensures Inv(s) && |s.rat.entries| == size
  {
    InitialInv(size, checkpoints);
    RunInv(Initial(size, checkpoints), steps);
  }

  /** A register that is not busy holds the in-order value for whoever recorded it as a source. */
  lemma OperandValue(s: Core, k: nat, a: nat)
    requires Inv(s) && s.c <= k < |s.hist|
    ensures var p := LastWriter(s.hist, k, a);
            && -1 <= p < |s.prf.prfs|
            && ((p >= 0 ==> !s.sb.busy[p]) ==> Operand(s.prf.prfs, p) == RefRead(Ref(s.hist, k), a))
  {
    if a != 0 {
      WriterCases(s.hist, s.c, k, a);
      if j :| s.c <= j < k && s.hist[j].insn.dst == a && s.hist[j].dst == LastWriter(s.hist, k, a) {
        assert Holds(s.rat.entries, s.sb.busy, s.hist[j]);
      }
    }
  }

  // ---- Renaming preserves meaning ------------------------------------------------------------

  function Insns(h: seq<Flight>): (r: seq<Insn>)
    ensures |r| == |h|
  {
    seq(|h|, i requires 0 <= i < |h| => h[i].insn)
  }

  lemma {:induction false} RefIsInOrder(h: seq<Flight>, n: nat)
    requires n <= |h|
    ensures Ref(h, n) == RefRun(Insns(h)[..n])
  {
    if n > 0 {
      RefIsInOrder(h, n - 1);
      assert Insns(h)[..n][..n - 1] == Insns(h)[..n - 1];
    }
  }

  /** Whatever operand an in-flight instruction reads or has read is the value in-order execution of
      everything before it gives. */
  ghost predicate OperandsInOrder(s: Core)
    requires Sized(s)
  {
    var program := Insns(s.hist);
    && (forall k, second :: s.c <= k < |s.hist| && Readable(s, k, second) ==>
          var p := if second then s.hist[k].src2 else s.hist[k].src1;
          var a := if second then program[k].src2 else program[k].src1;
          Operand(s.prf.prfs, p) == RefRead(RefRun(program[..k]), a))
    && (forall k :: s.c <= k < |s.hist| && s.latch[k].val1.Some? ==>
          s.latch[k].val1.value == RefRead(RefRun(program[..k]), program[k].src1))
    && (forall k :: s.c <= k < |s.hist| && s.latch[k].val2.Some? ==>
          s.latch[k].val2.value == RefRead(RefRun(program[..k]), program[k].src2))
  }

  /** The shadow table designates the registers that hold the in-order values of everything committed;
      an architectural register it does not designate holds 0. */
  ghost predicate CommitsInOrder(s: Core)
    requires Sized(s)
  {
    var regs := RefRun(Insns(s.hist)[..s.c]);
    && (forall i :: 0 <= i < |s.sh.entries| && s.sh.entries[i].nra ==>
          s.sh.entries[i].arf > 0 && s.prf.prfs[i] == RefRead(regs, s.sh.entries[i].arf))
    && (forall a: nat :: RefRead(regs, a) != 0 ==>
          exists i :: 0 <= i < |s.sh.entries| && s.sh.entries[i].nra && s.sh.entries[i].arf == a)
  }

  lemma InvOperands(s: Core)
    requires Inv(s)
    ensures OperandsInOrder(s)
  {
    forall n: nat | n <= |s.hist| ensures Ref(s.hist, n) == RefRun(Insns(s.hist)[..n]) {
      RefIsInOrder(s.hist, n);
    }
    forall k, second | s.c <= k < |s.hist| && Readable(s, k, second)
      ensures var p := if second then s.hist[k].src2 else s.hist[k].src1;
              var a := if second then s.hist[k].insn.src2 else s.hist[k].insn.src1;
              Operand(s.prf.prfs, p) == RefRead(Ref(s.hist, k), a)
    {
      OperandValue(s, k, if second then s.hist[k].insn.src2 else s.hist[k].insn.src1);
    }
  }

  lemma InvCommits(s: Core)
    requires Inv(s)
    ensures CommitsInOrder(s)
  {
    RefIsInOrder(s.hist, s.c);
    forall a: nat | RefRead(Ref(s.hist, s.c), a) != 0
      ensures exists i :: 0 <= i < |s.sh.entries| && s.sh.entries[i].nra && s.sh.entries[i].arf == a
    {
      var p := LastWriter(s.hist, s.c, a);
      assert p >= 0;
      assert s.sh.entries[p].nra && s.sh.entries[p].arf == a;
    }
  }

  /** Renaming preserves meaning, in every state of every run, squashes included. */
  lemma RenamingPreservesMeaning(size: nat, checkpoints: nat, steps: seq<Step>, s: Core)
    requires Reaches(size, checkpoints, steps, s)
    ensures Sized(s) && OperandsInOrder(s) && CommitsInOrder(s)
  {
    ReachedInv(size, checkpoints, steps, s);
    InvOperands(s);
    InvCommits(s);
  }

  /** What a step renames: a rename that finds no free register waits. */
  ghost function AcceptedNow(s: Core, step: Step): seq<Insn> {
    if step.Cycle? && step.i.rename.Some? && CanRename(s, step.i.rename.value) then [step.i.rename.value] else []
  }

  /** The instructions a run renames, in order. */
  ghost function Accepted(s: Core, steps: seq<Step>): seq<Insn>
    requires Run(s, steps).Some?
    decreases |steps|
  {
    if steps == [] then [] else AcceptedNow(s, steps[0]) + Accepted(After(s, steps[0]), steps[1..])
  }

  ghost predicate Straight(steps: seq<Step>) {
    forall j :: 0 <= j < |steps| && steps[j].Cycle? ==> steps[j].i.restore == -1
  }

  lemma Append<T>(a: seq<T>, b: seq<T>, c: seq<T>)
    ensures (a + b) + c == a + (b + c)
  {
  }

  lemma HistoryAfterCycle(s: Core, i: Input)
    requires Fits(s, i) && i.restore == -1
    ensures Insns(Clock(s, i).hist) == Insns(s.hist) + AcceptedNow(s, Cycle(i))
  {
    SameHistory(s, i);
    RenameHistory(s, i);
    RestoreHistory(s, i);
    var h := AfterRename(s, i).hist;
    assert h[..|h|] == h;
    assert Insns(h) == Insns(s.hist) + AcceptedNow(s, Cycle(i));
  }

  lemma HistoryAfterStep(s: Core, step: Step)
    requires Inv(s) && Allowed(s, step) && (step.Cycle? ==> step.i.restore == -1)
    ensures Insns(After(s, step).hist) == Insns(s.hist) + AcceptedNow(s, step)
  {
    if step.Cycle? {
      InvFits(s, step.i);
      HistoryAfterCycle(s, step.i);
    }
  }

  lemma {:induction false} HistoryIsAccepted(s: Core, steps: seq<Step>)
    requires Inv(s) && Run(s, steps).Some? && Straight(steps)
    ensures Insns(Run(s, steps).value.hist) == Insns(s.hist) + Accepted(s, steps)
    decreases |steps|
  {
    if steps != [] {
      var r, rest := After(s, steps[0]), steps[1..];
      StepInv(s, steps[0]);
      HistoryAfterStep(s, steps[0]);
      HistoryIsAccepted(r, rest);
      Append(Insns(s.hist), AcceptedNow(s, steps[0]), Accepted(r, rest));
    }
  }

  /** With nothing in flight, reading through the alias table gives the in-order value. */
  lemma QuietRead(s: Core, a: nat)
    requires Inv(s) && s.c == |s.hist|
    ensures var p := Alias(s.rat.entries, a);
            -1 <= p < |s.prf.prfs| && Operand(s.prf.prfs, p) == RefRead(RefRun(Insns(s.hist)), a)
  {
    RefIsInOrder(s.hist, |s.hist|);
    assert Insns(s.hist)[..|s.hist|] == Insns(s.hist);
    AliasIsLastWriter(s.rat.entries, s.sb.busy, s.sh.entries, s.hist, s.c, a);
    if a != 0 { assert -1 <= LastWriter(s.hist, s.c, a) < |s.prf.prfs|; }
  }

  /** Straight-line programs: once everything renamed has committed, reading each architectural
      register through the alias table gives what the in-order machine computes. */
  lemma StraightLineRefinement(size: nat, checkpoints: nat, steps: seq<Step>, s: Core, a: nat)
    requires Reaches(size, checkpoints, steps, s) && Straight(steps) && s.c == |s.hist|
    ensures var p, program := Alias(s.rat.entries, a), Accepted(Initial(size, checkpoints), steps);
            -1 <= p < |s.prf.prfs| && Operand(s.prf.prfs, p) == RefRead(RefRun(program), a)
  {
    ReachedInv(size, checkpoints, steps, s);
    ReachedHistory(size, checkpoints, steps, s);
    QuietRead(s, a);
  }

  /** From reset, a run without restores leaves exactly what it renamed in the history. */
  lemma ReachedHistory(size: nat, checkpoints: nat, steps: seq<Step>, s: Core)
    requires Reaches(size, checkpoints, steps, s) && Straight(steps)
    ensures Insns(s.hist) == Accepted(Initial(size, checkpoints), steps)
  {
    InitialInv(size, checkpoints);
    HistoryIsAccepted(Initial(size, checkpoints), steps);
    assert Insns(Initial(size, checkpoints).hist) == [];
  }

  // ---- No early reuse -----------------------------------------------------------------------

  /** The register a touch hands out is neither a source nor the destination of an instruction in
      flight, nor the current mapping or the last committed register of anything. */
  lemma NoEarlyReuse(size: nat, checkpoints: nat, steps: seq<Step>, s: Core, k: nat)
    requires Reaches(size, checkpoints, steps, s) && s.c <= k < |s.hist|
    ensures var t := FreeIndex(s.rat.entries, 0);
            t >= 0 ==> t != s.hist[k].src1 && t != s.hist[k].src2 && t != s.hist[k].dst
                       && t < |s.sb.busy| == |s.sh.entries|
                       && !s.rat.entries[t].v && !s.sb.busy[t] && !s.sh.entries[t].nra
  {
    ReachedInv(size, checkpoints, steps, s);
    KeptSource(s, k, s.hist[k].insn.src1);
    KeptSource(s, k, s.hist[k].insn.src2);
    var t := FreeIndex(s.rat.entries, 0);
    if t >= 0 {
      FreeIsIdle(s, t);
      ValidIsKept(s.rat.entries, s.sb.busy, s.sh.entries, s.hist, s.c, t);
    }
  }

  lemma KeptSource(s: Core, k: nat, a: nat)
    requires Inv(s) && s.c <= k < |s.hist|
    ensures var p := LastWriter(s.hist, k, a);
            p == -1 || (0 <= p < |s.rat.entries| && s.rat.entries[p].nra)
  {
    if a != 0 { WritersAreKept(s.rat.entries, s.sb.busy, s.sh.entries, s.hist, s.c, k, a); }
  }

  // ---- The rename-table invariant ---------------------------------------------------------------

  /** Entry i keeps PRF i; each architectural register is mapped at most once, and register 0 never; what is
      mapped or busy is not handed out; and without un-synchronised squashes each architectural register
      keeps at most one register that is not busy. */
  ghost predicate TablesOk(s: Core)
    requires Sized(s)
  {
    var es, busy := s.rat.entries, s.sb.busy;
    && (forall i :: 0 <= i < |es| ==> es[i].prf == i)
    && (forall i, j :: 0 <= i < j < |es| && es[i].v && es[j].v ==> es[i].arf != es[j].arf)
    && (forall i :: 0 <= i < |es| && es[i].v ==> es[i].nra && es[i].arf != 0)
    && (forall i :: 0 <= i < |es| && busy[i] ==> es[i].nra)
    && (s.clean ==> forall i, j :: 0 <= i < j < |es| && es[i].nra && es[j].nra && !busy[i] && !busy[j] ==>
                      es[i].arf != es[j].arf)
  }

  lemma OneCommitted(es: seq<Entry>, busy: seq<bool>, sh: seq<Entry>, h: seq<Flight>, c: nat, i: nat, j: nat)
    requires |busy| == |es| == |sh| && c <= |h| && Committed(es, busy, sh, h, c) && i < j < |es|
    requires sh[i].nra && sh[j].nra
    ensures es[i].arf != es[j].arf
  {
    assert LastWriter(h, c, sh[i].arf) == i && LastWriter(h, c, sh[j].arf) == j;
  }

  /** The tables in every state of every run. */
  lemma TableInvariant(size: nat, checkpoints: nat, steps: seq<Step>, s: Core)
    requires Reaches(size, checkpoints, steps, s)
    ensures Sized(s) && TablesOk(s)
  {
    ReachedInv(size, checkpoints, steps, s);
    var es, busy, sh, h, c := s.rat.entries, s.sb.busy, s.sh.entries, s.hist, s.c;
    forall i | 0 <= i < |es| ensures (es[i].v ==> es[i].nra && es[i].arf != 0) && (busy[i] ==> es[i].nra) {
      ValidIsKept(es, busy, sh, h, c, i);
      if es[i].v { assert Maps(es, h, |h|, i); }
      if busy[i] {
        var k :| c <= k < |h| && h[k].dst == i;
        assert Holds(es, busy, h[k]);
      }
    }
    forall i, j | 0 <= i < j < |es| && es[i].v && es[j].v ensures es[i].arf != es[j].arf {
      assert Maps(es, h, |h|, i) && Maps(es, h, |h|, j);
    }
    forall i, j | s.clean && 0 <= i < j < |es| && es[i].nra && es[j].nra && !busy[i] && !busy[j]
      ensures es[i].arf != es[j].arf
    {
      OneCommitted(es, busy, sh, h, c, i, j);
    }
  }

  // ---- Shadow agreement and synchronisation ---------------------------------------------------

  /** An entry kept for nobody: it is neither the destination of an instruction in flight among the first n
      of the history nor committed. */
  ghost predicate Orphan(s: Core, n: nat, e: nat)
    requires Sized(s) && n <= |s.hist| && e < |s.rat.entries|
  {
    s.rat.entries[e].nra && !Pending(s.hist, s.c, n, e)
    && forall a :: LastWriter(s.hist, s.c, a) != e
  }

  /** In every state of every run the shadow NRA bits are exactly the last committed registers. */
  lemma ShadowAgreement(size: nat, checkpoints: nat, steps: seq<Step>, s: Core, i: nat)
    requires Reaches(size, checkpoints, steps, s) && i < |s.sh.entries|
    ensures s.c <= |s.hist|
    ensures s.sh.entries[i].nra <==> exists a :: LastWriter(s.hist, s.c, a) == i
  {
    ReachedInv(size, checkpoints, steps, s);
    if s.sh.entries[i].nra {
      assert LastWriter(s.hist, s.c, s.sh.entries[i].arf) == i;
    }
  }

  /** Every legal synchronising cycle, also one that restores a checkpoint, frees exactly the orphans, among
      them the registers of what it squashes itself; and with the restore applied everything mapped stays
      marked. */
  lemma SyncFreesOrphans(s: Core, i: Input, e: nat)
    requires Inv(s) && Legal(s, i) && i.sync && e < |s.rat.entries|
    ensures Fits(s, i) && |Clock(s, i).rat.entries| == |s.rat.entries|
    ensures Clock(s, i).rat.entries[e].nra <==> s.rat.entries[e].nra && !Orphan(s, Length(s, i), e)
    ensures Clock(s, i).rat.entries[e].nra <==> exists a :: LastWriter(s.hist, s.c, a) == e
    ensures Clock(s, i).rat.entries[e].v ==> Clock(s, i).rat.entries[e].nra
  {
    SyncedNra(s, i, e);
    ClockInv(s, i);
    var r := Clock(s, i);
    ValidIsKept(r.rat.entries, r.sb.busy, r.sh.entries, r.hist, r.c, e);
    if s.sh.entries[e].nra {
      assert LastWriter(s.hist, s.c, s.sh.entries[e].arf) == e;
    }
  }

  /** What a synchronising cycle leaves in the NRA bits is what the shadow table held. */
  lemma SyncedNra(s: Core, i: Input, e: nat)
    requires Inv(s) && Legal(s, i) && i.sync && e < |s.rat.entries|
    ensures Fits(s, i) && |Clock(s, i).rat.entries| == |s.rat.entries|
    ensures Clock(s, i).rat.entries[e].nra == s.sh.entries[e].nra
    ensures AfterRename(s, i).hist == s.hist && Length(s, i) == s.c
  {
    ClockIsSerial(s, i);
    RestoreStage(s, i);
    RenameStage(s, i);
    CommitStage(s, i);
  }
}
