/** Register renaming as a clocked machine: the alias table, the shadow table, the scoreboard and
    the register file, driven by renames, operand reads, in-order commits, checkpoints, restores
    and NRA synchronisation.

    Beside the component states a `Core` records the history the protocol is about: every renamed
    instruction that has not been squashed, oldest first, of which the first `c` have committed and
    the others are in flight. */
module Renaming {
  import opened Wrappers
  import opened RegisterFiles
  import opened Instructions
  import opened Scoreboards
  import opened AliasEntries
  import opened AliasTables
  import opened ShadowTables

  /** A renamed instruction with the physical registers recorded at rename (-1 for none). */
  datatype Flight = Flight(insn: Insn, dst: int, src1: int, src2: int)

  /** The operands an instruction has read so far. */
  datatype Latch = Latch(val1: Option<Word>, val2: Option<Word>)

  datatype Core = Core(
    rat: Table, sh: Shadow, sb: Board, prf: Registers,
    hist: seq<Flight>, latch: seq<Latch>, c: nat,
    marks: seq<Option<nat>>,  // per checkpoint: the length of the history it was taken at
    clean: bool)              // no instruction was squashed since the last NRA synchronisation

  /** The requests of one clock cycle; -1 in `alloc` or `restore` stands for none. */
  datatype Input = Input(rename: Option<Insn>, commit: bool, alloc: int, restore: int, sync: bool)

  // ---- The meaning of a history -------------------------------------------------------------

  /** The physical register written by the last of the first `n` instructions that writes `a`. */
  function LastWriter(hist: seq<Flight>, n: nat, a: int): int
    requires n <= |hist|
  {
    if a == 0 || n == 0 then -1
    else if hist[n - 1].insn.dst == a then hist[n - 1].dst
    else LastWriter(hist, n - 1, a)
  }

  /** The architectural registers after executing the first `n` instructions in order. */
  function Ref(hist: seq<Flight>, n: nat): Regs
    requires n <= |hist|
  {
    if n == 0 then map[] else RefStep(Ref(hist, n - 1), hist[n - 1].insn)
  }

  /** Physical register `p` is the destination of one of the instructions lo..hi-1. */
  ghost predicate Pending(hist: seq<Flight>, lo: nat, hi: nat, p: int)
    requires hi <= |hist|
  {
    exists k :: lo <= k < hi && hist[k].dst == p
  }

  lemma {:induction false} SamePrefix(h: seq<Flight>, h': seq<Flight>, n: nat, a: int)
    requires n <= |h| && n <= |h'| && forall k :: 0 <= k < n ==> h[k] == h'[k]
    ensures LastWriter(h, n, a) == LastWriter(h', n, a) && Ref(h, n) == Ref(h', n)
  {
    if n > 0 { SamePrefix(h, h', n - 1, a); }
  }

  lemma Extension(h: seq<Flight>, h': seq<Flight>)
    requires h <= h'
    ensures forall n: nat, a :: n <= |h| ==> LastWriter(h', n, a) == LastWriter(h, n, a)
    ensures forall n: nat :: n <= |h| ==> Ref(h', n) == Ref(h, n)
  {
    forall n: nat, a | n <= |h| ensures LastWriter(h', n, a) == LastWriter(h, n, a) && Ref(h', n) == Ref(h, n) {
      SamePrefix(h, h', n, a);
    }
    forall n: nat | n <= |h| ensures Ref(h', n) == Ref(h, n) { SamePrefix(h, h', n, 0); }
  }

  /** Either one of the instructions lo..n-1 is the last writer of `a`, or none of them writes it
      and both the last writer and the value are those after the first `lo` instructions. */
  lemma {:induction false} WriterCases(h: seq<Flight>, lo: nat, n: nat, a: nat)
    requires lo <= n <= |h| && a != 0
    ensures || (exists k :: lo <= k < n && h[k].insn.dst == a && h[k].dst == LastWriter(h, n, a))
            || (LastWriter(h, n, a) == LastWriter(h, lo, a)
                && RefRead(Ref(h, n), a) == RefRead(Ref(h, lo), a))
  {
    if lo < n { WriterCases(h, lo, n - 1, a); }
  }

  // ---- One clock cycle through the components' staged calls --------------------------------

  ghost predicate Sized(s: Core) {
    var n := |s.rat.entries|;
    && s.rat.Valid() && s.rat.Idle()
    && s.sb.Valid() && s.sb.Idle() && |s.sb.busy| == n
    && s.sh.Valid() && s.sh.Idle() && |s.sh.entries| == n
    && s.prf.Valid() && s.prf.index < 0 && |s.prf.prfs| == n
    && |s.latch| == |s.hist| && s.c <= |s.hist|
    && |s.rat.cks| == |s.sb.cks| == |s.marks|
  }

  /** The history length checkpoint `k` stands for once this cycle's allocation is counted. */
  function MarkOf(s: Core, i: Input, k: int): Option<nat>
    requires 0 <= k < |s.marks|
  {
    if k == i.alloc then Some(|s.hist|) else s.marks[k]
  }

  /** The protocol: the oldest instruction commits and has read its operands; a restored checkpoint
      lies within what is in flight after the commit; synchronisation happens alone, in a cycle that
      leaves nothing in flight. */
  ghost predicate Legal(s: Core, i: Input)
    requires Sized(s)
  {
    && -1 <= i.alloc < |s.marks|
    && -1 <= i.restore < |s.marks|
    && (i.commit ==> s.c < |s.hist| && s.latch[s.c].val1.Some? && s.latch[s.c].val2.Some?)
    && (i.restore != -1 ==>
          var m := MarkOf(s, i, i.restore);
          m.Some? && s.c + (if i.commit then 1 else 0) <= m.value <= |s.hist|)
    && (i.sync ==>
          && i.rename.None? && !i.commit
          && s.c == if i.restore != -1 then MarkOf(s, i, i.restore).value else |s.hist|)
  }

  /** The value the committing instruction computes from the operands it has read. */
  function Result(f: Flight, l: Latch): Word
    requires l.val1.Some? && l.val2.Some?
  {
    Alu(f.insn, l.val1.value, l.val2.value)
  }

  ghost function StagedTable(s: Core, i: Input, touched: Table, done: int): (r: Table)
    requires Sized(s) && touched.Valid() && |touched.entries| == |s.rat.entries| && |touched.cks| == |s.rat.cks|
    requires -1 <= i.alloc < |s.marks| && -1 <= i.restore < |s.marks| && -1 <= done < |s.rat.entries|
    ensures r.Valid() && |r.entries| == |s.rat.entries| && |r.cks| == |s.rat.cks|
  {
    var t := if done >= 0 then touched.Commit(s.sb.busy, done) else touched;
    var t := if i.sync then t.SyncNRA(s.sh.NraBits()) else t;
    t.(alloc := i.alloc, restore := i.restore)
  }

  ghost function StagedBoard(s: Core, i: Input, taken: int, done: int): (r: Board)
    requires Sized(s)
    requires -1 <= i.alloc < |s.marks| && -1 <= i.restore < |s.marks|
    requires -1 <= taken < |s.sb.busy| && -1 <= done < |s.sb.busy|
    ensures r.Valid() && |r.busy| == |s.sb.busy| && |r.cks| == |s.sb.cks|
  {
    var b := if taken >= 0 then s.sb.TakeOff(taken) else s.sb;
    var b := if done >= 0 then b.Land(done) else b;
    b.(alloc := i.alloc, restore := i.restore)
  }

  /** What one cycle does: the rename looks its sources up and touches, the commit lands, writes
      and releases, and then every component is clocked. A rename that finds no free register
      waits. Squashed instructions leave the history with the checkpoints taken after them. */
  ghost function Clock(s: Core, i: Input): Core
    requires Sized(s) && Legal(s, i)
    requires i.commit ==> -1 <= s.hist[s.c].dst < |s.rat.entries|
  {
    var touch := if i.rename.Some? then s.rat.Touch(true, i.rename.value.dst) else Touched(s.rat, false, None);
    var taken := if touch.prf.Some? then touch.prf.value else -1;
    var done := if i.commit then s.hist[s.c].dst else -1;
    var value := if i.commit then Result(s.hist[s.c], s.latch[s.c]) else 0;
    var arf := if i.commit then s.hist[s.c].insn.dst else 0;
    var hist := if !touch.ok then s.hist
                else s.hist + [Flight(i.rename.value, taken, Alias(s.rat.entries, i.rename.value.src1),
                                      Alias(s.rat.entries, i.rename.value.src2))];
    var latch := if !touch.ok then s.latch else s.latch + [Latch(None, None)];
    var length := if i.restore != -1 then MarkOf(s, i, i.restore).value else |hist|;
    Core(
      StagedTable(s, i, touch.table, done).Next(),
      (if done >= 0 then s.sh.Commit(done, arf) else s.sh).Next(),
      StagedBoard(s, i, taken, done).Next(),
      (if done >= 0 then s.prf.Set(done, value) else s.prf).Next(),
      hist[..length], latch[..length],
      if i.commit then s.c + 1 else s.c,
      seq(|s.marks|, k requires 0 <= k < |s.marks| =>
        var m := MarkOf(s, i, k);
        if m.Some? && m.value <= length then m else None),
      i.sync || (s.clean && length == |hist|))
  }

  /** An in-flight instruction may read an operand once its register is not busy. */
  ghost predicate Readable(s: Core, k: nat, second: bool)
    requires Sized(s)
  {
    && s.c <= k < |s.hist|
    && var p := if second then s.hist[k].src2 else s.hist[k].src1;
       -1 <= p < |s.sb.busy| && (p >= 0 ==> !s.sb.busy[p])
  }

  ghost function Read(s: Core, k: nat, second: bool): Core
    requires Sized(s) && Readable(s, k, second)
  {
    var l := s.latch[k];
    var l' := if second then l.(val2 := Some(Operand(s.prf.prfs, s.hist[k].src2)))
              else l.(val1 := Some(Operand(s.prf.prfs, s.hist[k].src1)));
    s.(latch := s.latch[k := l'])
  }

  ghost function Initial(size: nat, checkpoints: nat): (s: Core)
    ensures Sized(s)
  {
    Core(ResetTable(size, checkpoints), ResetShadow(size), Reset(size, checkpoints),
         Registers(seq(size, i => 0), -1, 0), [], [], 0, seq(checkpoints, k => None), true)
  }

  // ---- The invariant --------------------------------------------------------------------------
  // Each part names only the registers it depends on: the alias entries `es`, the busy bits, the
  // shadow entries `sh`, the history `h` and the number `c` of committed instructions in it.

  /** Entry i keeps PRF i, and architectural numbers are not negative. */
  ghost predicate Identity(es: seq<Entry>) {
    forall i :: 0 <= i < |es| ==> es[i].prf == i && es[i].arf >= 0
  }

  /** The instruction writes nothing, or holds a busy register that is mapped to its destination. */
  ghost predicate Holds(es: seq<Entry>, busy: seq<bool>, f: Flight)
    requires |busy| == |es|
  {
    if f.insn.dst == 0 then f.dst == -1
    else 0 <= f.dst < |es| && busy[f.dst] && es[f.dst].nra && es[f.dst].arf == f.insn.dst
  }

  ghost predicate InFlight(es: seq<Entry>, busy: seq<bool>, h: seq<Flight>, c: nat)
    requires |busy| == |es|
  {
    && (forall k :: c <= k < |h| ==> Holds(es, busy, h[k]))
    && (forall j, k :: c <= j < k < |h| && h[j].dst >= 0 ==> h[j].dst != h[k].dst)
    && (forall p :: 0 <= p < |busy| && busy[p] ==> Pending(h, c, |h|, p))
  }

  /** The shadow NRA bits mark exactly the last committed register of every architectural one; those
      registers are not busy and not free. */
  ghost predicate Committed(es: seq<Entry>, busy: seq<bool>, sh: seq<Entry>, h: seq<Flight>, c: nat)
    requires |busy| == |es| == |sh| && c <= |h|
  {
    && (forall a :: LastWriter(h, c, a) != -1 ==>
          var p := LastWriter(h, c, a);
          && 0 <= p < |es|
          && sh[p].nra && sh[p].arf == a
          && es[p].nra && es[p].arf == a
          && !busy[p])
    && (forall i :: 0 <= i < |sh| && sh[i].nra ==> sh[i].arf > 0 && LastWriter(h, c, sh[i].arf) == i)
  }

  /** Entry i is the mapping of its architectural register after the first n instructions. */
  ghost predicate Maps(es: seq<Entry>, h: seq<Flight>, n: nat, i: nat)
    requires n <= |h| && i < |es|
  {
    LastWriter(h, n, es[i].arf) == i
  }

  ghost predicate Mapped(es: seq<Entry>, h: seq<Flight>) {
    forall i :: 0 <= i < |es| ==> (es[i].v <==> Maps(es, h, |h|, i))
  }

  /** A checkpoint mark that lies within what is in flight can still be restored. */
  predicate Live(m: Option<nat>, h: seq<Flight>, c: nat) {
    m.Some? && c <= m.value <= |h|
  }

  /** A checkpoint holds the mapping and the busy bits of the first n instructions. */
  ghost predicate Snapshot(es: seq<Entry>, vs: seq<bool>, bs: seq<bool>, h: seq<Flight>, c: nat, n: nat)
    requires |vs| == |es| == |bs| && n <= |h|
  {
    forall i :: 0 <= i < |es| ==> (vs[i] <==> Maps(es, h, n, i)) && (bs[i] <==> Pending(h, c, n, i))
  }

  ghost predicate Saved(es: seq<Entry>, vcks: seq<seq<bool>>, bcks: seq<seq<bool>>, marks: seq<Option<nat>>,
                        h: seq<Flight>, c: nat)
    requires |vcks| == |bcks| == |marks|
    requires forall k :: 0 <= k < |vcks| ==> |vcks[k]| == |es|
    requires forall k :: 0 <= k < |bcks| ==> |bcks[k]| == |es|
  {
    && (forall k :: 0 <= k < |marks| && marks[k].Some? ==> marks[k].value <= |h|)
    && (forall k :: 0 <= k < |marks| && Live(marks[k], h, c) ==>
          Snapshot(es, vcks[k], bcks[k], h, c, marks[k].value))
  }

  /** The sources recorded at rename are the last older writers. */
  ghost predicate Sources(h: seq<Flight>, c: nat) {
    forall k :: c <= k < |h| ==>
      h[k].src1 == LastWriter(h, k, h[k].insn.src1) && h[k].src2 == LastWriter(h, k, h[k].insn.src2)
  }

  /** Reading an operand: the register named at rename, or 0 when there was none. */
  function Operand(prfs: seq<Word>, p: int): Word
    requires -1 <= p < |prfs|
  {
    if p < 0 then 0 else prfs[p]
  }

  /** The register file holds the in-order values of the committed registers. */
  ghost predicate Values(prfs: seq<Word>, h: seq<Flight>, c: nat)
    requires c <= |h|
  {
    forall a: nat :: a != 0 ==>
      var p := LastWriter(h, c, a);
      -1 <= p < |prfs| && Operand(prfs, p) == RefRead(Ref(h, c), a)
  }

  /** Every operand read so far is the in-order one. */
  ghost predicate Latched(latch: seq<Latch>, h: seq<Flight>, c: nat)
    requires |latch| == |h|
  {
    forall k :: c <= k < |h| ==>
      && (latch[k].val1.Some? ==> latch[k].val1.value == RefRead(Ref(h, k), h[k].insn.src1))
      && (latch[k].val2.Some? ==> latch[k].val2.value == RefRead(Ref(h, k), h[k].insn.src2))
  }

  /** Whatever may not be handed out is busy or committed. */
  ghost predicate NoOrphans(es: seq<Entry>, busy: seq<bool>, sh: seq<Entry>)
    requires |busy| == |es| == |sh|
  {
    forall i :: 0 <= i < |es| && es[i].nra ==> busy[i] || sh[i].nra
  }

  ghost predicate Inv(s: Core) {
    var es, busy, sh, h, c := s.rat.entries, s.sb.busy, s.sh.entries, s.hist, s.c;
    && Sized(s)
    && Identity(es)
    && InFlight(es, busy, h, c)
    && Committed(es, busy, sh, h, c)
    && Mapped(es, h)
    && Saved(es, s.rat.cks, s.sb.cks, s.marks, h, c)
    && Sources(h, c)
    && Values(s.prf.prfs, h, c)
    && Latched(s.latch, h, c)
    && (s.clean ==> NoOrphans(es, busy, sh))
  }

  lemma InitialInv(size: nat, checkpoints: nat)
    ensures Inv(Initial(size, checkpoints))
  {
  }

  /** Whatever any restorable history maps is marked not reallocatable, under its own number. */
  lemma WritersAreKept(es: seq<Entry>, busy: seq<bool>, sh: seq<Entry>, h: seq<Flight>, c: nat, n: nat, a: nat)
    requires |busy| == |es| == |sh| && c <= n <= |h| && a != 0
    requires InFlight(es, busy, h, c) && Committed(es, busy, sh, h, c)
    ensures var p := LastWriter(h, n, a); p == -1 || (0 <= p < |es| && es[p].nra && es[p].arf == a)
  {
    WriterCases(h, c, n, a);
    if k :| c <= k < n && h[k].insn.dst == a && h[k].dst == LastWriter(h, n, a) {
      assert Holds(es, busy, h[k]);
    } else {
      assert LastWriter(h, n, a) == LastWriter(h, c, a);
    }
  }

  /** The associative lookup finds the last writer. */
  lemma AliasIsLastWriter(es: seq<Entry>, busy: seq<bool>, sh: seq<Entry>, h: seq<Flight>, c: nat, a: nat)
    requires |busy| == |es| == |sh| && c <= |h|
    requires Identity(es) && InFlight(es, busy, h, c) && Committed(es, busy, sh, h, c) && Mapped(es, h)
    ensures Alias(es, a) == LastWriter(h, |h|, a)
  {
    if a != 0 {
      WritersAreKept(es, busy, sh, h, c, |h|, a);
      var p := LastWriter(h, |h|, a);
      if p >= 0 { assert Maps(es, h, |h|, p); }
      var i := AliasIndex(es, a, 0);
      if i >= 0 { assert Maps(es, h, |h|, i); }
    }
  }
}
