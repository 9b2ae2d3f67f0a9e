/** A clock cycle equals a serial execution of its requests (allocate, rename, commit, restore,
    synchronise), and each of those keeps the renaming invariant. */
module RenamingSteps {
  import opened Wrappers
  import opened RegisterFiles
  import opened Instructions
  import opened AliasEntries
  import opened AliasTables
  import opened Renaming

  // ---- The serial steps -----------------------------------------------------------------------

  ghost function Allocated(s: Core, k: nat): (r: Core)
    requires Sized(s) && k < |s.marks|
    ensures Sized(r)
  {
    var vs := seq(|s.rat.entries|, i requires 0 <= i < |s.rat.entries| => s.rat.entries[i].v);
    s.(rat := s.rat.(cks := s.rat.cks[k := vs]),
       sb := s.sb.(cks := s.sb.cks[k := s.sb.busy]),
       marks := s.marks[k := Some(|s.hist|)])
  }

  ghost predicate CanRename(s: Core, insn: Insn) {
    insn.dst == 0 || FreeIndex(s.rat.entries, 0) >= 0
  }

  /** The alias entries after `arf` is mapped to entry `t`. */
  function Remapped(es: seq<Entry>, arf: nat, t: nat): (r: seq<Entry>)
    requires t < |es|
    ensures |r| == |es|
  {
    var o := AliasIndex(es, arf, 0);
    var es' := if o < 0 then es else es[o := es[o].(v := false)];
    es'[t := Entry(true, es[t].prf, arf, true)]
  }

  /** The alias entries after every entry of `arf` that is not busy is released. */
  function Released(es: seq<Entry>, busy: seq<bool>, arf: int): (r: seq<Entry>)
    requires |busy| == |es|
    ensures |r| == |es|
  {
    seq(|es|, i requires 0 <= i < |es| => if !busy[i] && es[i].arf == arf then es[i].(nra := false) else es[i])
  }

  /** The shadow entries after `arf` is committed to entry `p`. */
  function Shadowed(sh: seq<Entry>, arf: int, p: nat): (r: seq<Entry>)
    ensures |r| == |sh|
  {
    seq(|sh|, i requires 0 <= i < |sh| =>
      if i == p then Entry(true, sh[i].prf, arf, true)
      else if sh[i].arf == arf then sh[i].(nra := false) else sh[i])
  }

  ghost function Renamed(s: Core, insn: Insn): (r: Core)
    requires Sized(s) && CanRename(s, insn)
    ensures Sized(r)
  {
    var es := s.rat.entries;
    var t := if insn.dst == 0 then -1 else FreeIndex(es, 0);
    var f := Flight(insn, t, Alias(es, insn.src1), Alias(es, insn.src2));
    var s' := s.(hist := s.hist + [f], latch := s.latch + [Latch(None, None)]);
    if t < 0 then s'
    else s'.(rat := s.rat.(entries := Remapped(es, insn.dst, t)), sb := s.sb.(busy := s.sb.busy[t := true]))
  }

  ghost predicate CanCommit(s: Core)
    requires Sized(s)
  {
    && s.c < |s.hist| && -1 <= s.hist[s.c].dst < |s.rat.entries|
    && (s.hist[s.c].dst >= 0 ==> s.hist[s.c].insn.dst != 0)
    && s.latch[s.c].val1.Some? && s.latch[s.c].val2.Some?
  }

  ghost function CommittedOne(s: Core): (r: Core)
    requires Sized(s) && CanCommit(s)
    ensures Sized(r)
  {
    var f := s.hist[s.c];
    if f.dst < 0 then s.(c := s.c + 1)
    else s.(
      c := s.c + 1,
      rat := s.rat.(entries := Released(s.rat.entries, s.sb.busy, s.rat.entries[f.dst].arf)),
      sb := s.sb.(busy := s.sb.busy[f.dst := false],
                  cks := seq(|s.sb.cks|, k requires 0 <= k < |s.sb.cks| => s.sb.cks[k][f.dst := false])),
      sh := s.sh.(entries := Shadowed(s.sh.entries, f.insn.dst, f.dst)),
      prf := s.prf.(prfs := s.prf.prfs[f.dst := Result(f, s.latch[s.c])]))
  }

  /** The alias entries with their V bits taken from a checkpoint. */
  function Revalidated(es: seq<Entry>, vs: seq<bool>): (r: seq<Entry>)
    requires |vs| == |es|
    ensures |r| == |es|
  {
    seq(|es|, i requires 0 <= i < |es| => es[i].(v := vs[i]))
  }

  ghost function Restored(s: Core, k: nat): (r: Core)
    requires Sized(s) && k < |s.marks| && Live(s.marks[k], s.hist, s.c)
    ensures Sized(r)
  {
    var m := s.marks[k].value;
    s.(rat := s.rat.(entries := Revalidated(s.rat.entries, s.rat.cks[k])),
       sb := s.sb.(busy := s.sb.cks[k]),
       hist := s.hist[..m], latch := s.latch[..m],
       marks := seq(|s.marks|, j requires 0 <= j < |s.marks| =>
         if s.marks[j].Some? && s.marks[j].value <= m then s.marks[j] else None),
       clean := s.clean && m == |s.hist|)
  }

  ghost function Synced(s: Core): (r: Core)
    requires Sized(s)
    ensures Sized(r)
  {
    s.(rat := s.rat.(entries := seq(|s.rat.entries|, i requires 0 <= i < |s.rat.entries| =>
         s.rat.entries[i].(nra := s.sh.entries[i].nra))),
       clean := true)
  }

  // ---- Each serial step keeps the invariant ------------------------------------------------

  /** The parts of the invariant that relate the tables to the history. */
  ghost predicate Tables(es: seq<Entry>, busy: seq<bool>, sh: seq<Entry>, h: seq<Flight>, c: nat) {
    && |busy| == |es| == |sh| && c <= |h|
    && Identity(es) && InFlight(es, busy, h, c) && Committed(es, busy, sh, h, c) && Mapped(es, h)
  }

  lemma BusyIsPending(es: seq<Entry>, busy: seq<bool>, h: seq<Flight>, c: nat, i: nat)
    requires |busy| == |es| && InFlight(es, busy, h, c) && i < |es|
    ensures busy[i] <==> Pending(h, c, |h|, i)
  {
    if Pending(h, c, |h|, i) {
      var k :| c <= k < |h| && h[k].dst == i;
      assert Holds(es, busy, h[k]);
    }
  }

  lemma AllocatedInv(s: Core, k: nat)
    requires Inv(s) && k < |s.marks|
    ensures Inv(Allocated(s, k))
  {
    var r := Allocated(s, k);
    assert Snapshot(r.rat.entries, r.rat.cks[k], r.sb.cks[k], r.hist, r.c, |r.hist|) by {
      forall i | 0 <= i < |s.sb.busy| ensures s.sb.busy[i] <==> Pending(s.hist, s.c, |s.hist|, i) {
        BusyIsPending(s.rat.entries, s.sb.busy, s.hist, s.c, i);
      }
    }
  }

  lemma RemappedInFlight(es: seq<Entry>, busy: seq<bool>, h: seq<Flight>, c: nat, f: Flight)
    requires |busy| == |es| && InFlight(es, busy, h, c) && c <= |h|
    requires f.insn.dst != 0 && f.dst >= 0 && f.dst == FreeIndex(es, 0)
    ensures InFlight(Remapped(es, f.insn.dst, f.dst), busy[f.dst := true], h + [f], c)
  {
    var t, a := f.dst, f.insn.dst;
    var es', busy', h' := Remapped(es, a, t), busy[t := true], h + [f];
    forall k | c <= k < |h'| ensures Holds(es', busy', h'[k]) {
      if k < |h| { assert Holds(es, busy, h[k]); }
    }
    forall p | 0 <= p < |busy'| && busy'[p] ensures Pending(h', c, |h'|, p) {
      if p == t { assert h'[|h|].dst == p; } else { PendingExtended(h, c, f, |h|, p); }
    }
    forall j, k | c <= j < k < |h'| && h'[j].dst >= 0 ensures h'[j].dst != h'[k].dst {
      assert Holds(es, busy, h[j]);
    }
  }

  lemma RemappedMapped(es: seq<Entry>, h: seq<Flight>, f: Flight)
    requires f.insn.dst != 0 && 0 <= f.dst < |es| && !es[f.dst].v && Mapped(es, h)
    ensures Mapped(Remapped(es, f.insn.dst, f.dst), h + [f])
  {
    var t, a := f.dst, f.insn.dst;
    var es', h' := Remapped(es, a, t), h + [f];
    Extension(h, h');
    var o := AliasIndex(es, a, 0);
    if o >= 0 { assert Maps(es, h, |h|, o); }
    forall i | 0 <= i < |es'| ensures es'[i].v <==> Maps(es', h', |h'|, i) {
      if i != t {
        assert es'[i].arf == es[i].arf;
        assert es[i].v <==> Maps(es, h, |h|, i);
      }
    }
  }

  lemma RemappedTables(es: seq<Entry>, busy: seq<bool>, sh: seq<Entry>, h: seq<Flight>, c: nat, f: Flight)
    requires Tables(es, busy, sh, h, c)
    requires f.insn.dst != 0 && f.dst >= 0 && f.dst == FreeIndex(es, 0)
    ensures Tables(Remapped(es, f.insn.dst, f.dst), busy[f.dst := true], sh, h + [f], c)
  {
    var t, a := f.dst, f.insn.dst;
    Extension(h, h + [f]);
    RemappedInFlight(es, busy, h, c, f);
    ValidIsKept(es, busy, sh, h, c, t);
    RemappedMapped(es, h, f);
  }

  /** V implies NRA. */
  lemma ValidIsKept(es: seq<Entry>, busy: seq<bool>, sh: seq<Entry>, h: seq<Flight>, c: nat, i: nat)
    requires Tables(es, busy, sh, h, c) && i < |es|
    ensures es[i].v ==> es[i].nra
  {
    if es[i].v {
      assert Maps(es, h, |h|, i);
      WritersAreKept(es, busy, sh, h, c, |h|, es[i].arf);
    }
  }

  lemma RemappedSaved(es: seq<Entry>, busy: seq<bool>, sh: seq<Entry>, h: seq<Flight>, c: nat, f: Flight,
                      vs: seq<bool>, bs: seq<bool>, n: nat)
    requires Tables(es, busy, sh, h, c)
    requires f.insn.dst != 0 && f.dst >= 0 && f.dst == FreeIndex(es, 0)
    requires |vs| == |es| == |bs| && c <= n <= |h| && Snapshot(es, vs, bs, h, c, n)
    ensures Snapshot(Remapped(es, f.insn.dst, f.dst), vs, bs, h + [f], c, n)
  {
    var t, a := f.dst, f.insn.dst;
    var es', h' := Remapped(es, a, t), h + [f];
    Extension(h, h');
    forall i | 0 <= i < |es| ensures (vs[i] <==> Maps(es', h', n, i)) && (bs[i] <==> Pending(h', c, n, i)) {
      assert vs[i] <==> Maps(es, h, n, i);
      PendingExtended(h, c, f, n, i);
      if i == t {
        WritersAreKept(es, busy, sh, h, c, n, a);
        if es[t].arf != 0 { WritersAreKept(es, busy, sh, h, c, n, es[t].arf); }
      }
    }
  }

  /** The parts of the invariant that only relate histories: sources and operands read. */
  lemma ExtendedHistory(h: seq<Flight>, latch: seq<Latch>, c: nat, f: Flight, prfs: seq<Word>)
    requires |latch| == |h| && c <= |h| && Sources(h, c) && Latched(latch, h, c) && Values(prfs, h, c)
    requires f.src1 == LastWriter(h, |h|, f.insn.src1) && f.src2 == LastWriter(h, |h|, f.insn.src2)
    ensures Sources(h + [f], c) && Latched(latch + [Latch(None, None)], h + [f], c) && Values(prfs, h + [f], c)
  {
    Extension(h, h + [f]);
  }

  lemma RenamedSaved(s: Core, insn: Insn)
    requires Inv(s) && CanRename(s, insn)
    ensures var r := Renamed(s, insn); Saved(r.rat.entries, r.rat.cks, r.sb.cks, r.marks, r.hist, r.c)
  {
    var es, busy, sh, h, c := s.rat.entries, s.sb.busy, s.sh.entries, s.hist, s.c;
    var r := Renamed(s, insn);
    var f := r.hist[|h|];
    forall k | 0 <= k < |s.marks| && Live(s.marks[k], r.hist, c)
      ensures Snapshot(r.rat.entries, r.rat.cks[k], r.sb.cks[k], r.hist, c, s.marks[k].value)
    {
      var n := s.marks[k].value;
      assert Live(s.marks[k], h, c);
      if f.dst >= 0 { RemappedSaved(es, busy, sh, h, c, f, s.rat.cks[k], s.sb.cks[k], n); }
      else { EmptyRenameSnapshot(es, s.rat.cks[k], s.sb.cks[k], h, c, f, n); }
    }
  }

  lemma RenamedInv(s: Core, insn: Insn)
    requires Inv(s) && CanRename(s, insn)
    ensures Inv(Renamed(s, insn))
  {
    var es, busy, sh, h, c := s.rat.entries, s.sb.busy, s.sh.entries, s.hist, s.c;
    var r := Renamed(s, insn);
    var f := r.hist[|h|];
    AliasIsLastWriter(es, busy, sh, h, c, insn.src1);
    AliasIsLastWriter(es, busy, sh, h, c, insn.src2);
    ExtendedHistory(h, s.latch, c, f, s.prf.prfs);
    if f.dst >= 0 { RemappedTables(es, busy, sh, h, c, f); } else { EmptyRenameTables(es, busy, sh, h, c, f); }
    RenamedSaved(s, insn);
  }

  lemma PendingExtended(h: seq<Flight>, c: nat, f: Flight, n: nat, p: int)
    requires n <= |h|
    ensures Pending(h + [f], c, n, p) <==> Pending(h, c, n, p)
  {
    if k :| c <= k < n && h[k].dst == p { assert (h + [f])[k].dst == p; }
    if k :| c <= k < n && (h + [f])[k].dst == p { assert h[k].dst == p; }
  }

  /** Renaming an instruction that writes register 0 changes no table. */
  lemma EmptyRenameTables(es: seq<Entry>, busy: seq<bool>, sh: seq<Entry>, h: seq<Flight>, c: nat, f: Flight)
    requires Tables(es, busy, sh, h, c) && f.dst == -1 && f.insn.dst == 0
    ensures Tables(es, busy, sh, h + [f], c)
  {
    var h' := h + [f];
    Extension(h, h');
    assert InFlight(es, busy, h', c) by {
      forall k | c <= k < |h'| ensures Holds(es, busy, h'[k]) {
        if k < |h| { assert Holds(es, busy, h[k]); }
      }
      forall p | 0 <= p < |busy| && busy[p] ensures Pending(h', c, |h'|, p) { PendingExtended(h, c, f, |h|, p); }
    }
    assert Committed(es, busy, sh, h', c);
    forall i | 0 <= i < |es| ensures es[i].v <==> Maps(es, h', |h'|, i) {
      assert es[i].v <==> Maps(es, h, |h|, i);
    }
  }

  lemma EmptyRenameSnapshot(es: seq<Entry>, vs: seq<bool>, bs: seq<bool>, h: seq<Flight>, c: nat, f: Flight, n: nat)
    requires |vs| == |es| == |bs| && n <= |h| && Snapshot(es, vs, bs, h, c, n)
    ensures Snapshot(es, vs, bs, h + [f], c, n)
  {
    var h' := h + [f];
    Extension(h, h');
    forall i | 0 <= i < |es| ensures (vs[i] <==> Maps(es, h', n, i)) && (bs[i] <==> Pending(h', c, n, i)) {
      assert vs[i] <==> Maps(es, h, n, i);
      PendingExtended(h, c, f, n, i);
    }
  }

  /** Committing instruction c: it stops being pending, and nothing else does. */
  lemma PendingAfterCommit(h: seq<Flight>, c: nat, n: nat, i: nat)
    requires c < n <= |h| && forall k :: c < k < |h| && h[c].dst >= 0 ==> h[k].dst != h[c].dst
    ensures Pending(h, c + 1, n, i) <==> Pending(h, c, n, i) && h[c].dst != i
  {
  }

  lemma CommittedTables(es: seq<Entry>, busy: seq<bool>, sh: seq<Entry>, h: seq<Flight>, c: nat)
    requires Tables(es, busy, sh, h, c) && c < |h| && h[c].dst >= 0
    ensures h[c].dst < |es| && es[h[c].dst].arf == h[c].insn.dst != 0
    ensures Tables(Released(es, busy, h[c].insn.dst), busy[h[c].dst := false],
                   Shadowed(sh, h[c].insn.dst, h[c].dst), h, c + 1)
  {
    var p, a := h[c].dst, h[c].insn.dst;
    assert Holds(es, busy, h[c]);
    var es', busy', sh' := Released(es, busy, a), busy[p := false], Shadowed(sh, a, p);
    assert InFlight(es', busy', h, c + 1) by {
      forall k | c + 1 <= k < |h| ensures Holds(es', busy', h[k]) { assert Holds(es, busy, h[k]); }
      forall q | 0 <= q < |busy| && busy'[q] ensures Pending(h, c + 1, |h|, q) {
        PendingAfterCommit(h, c, |h|, q);
      }
    }
    forall i | 0 <= i < |es| ensures es'[i].v <==> Maps(es', h, |h|, i) {
      assert es[i].v <==> Maps(es, h, |h|, i);
    }
    CommittedRegisters(es, busy, sh, h, c);
  }

  lemma CommittedRegisters(es: seq<Entry>, busy: seq<bool>, sh: seq<Entry>, h: seq<Flight>, c: nat)
    requires |busy| == |es| == |sh| && c < |h| && h[c].dst >= 0
    requires Committed(es, busy, sh, h, c) && Holds(es, busy, h[c])
    ensures Committed(Released(es, busy, h[c].insn.dst), busy[h[c].dst := false],
                      Shadowed(sh, h[c].insn.dst, h[c].dst), h, c + 1)
  {
    var p, a := h[c].dst, h[c].insn.dst;
    var es', busy', sh' := Released(es, busy, a), busy[p := false], Shadowed(sh, a, p);
    var n := c + 1;
    forall b | LastWriter(h, n, b) != -1
      ensures var q := LastWriter(h, n, b);
              0 <= q < |es'| && sh'[q].nra && sh'[q].arf == b && es'[q].nra && es'[q].arf == b && !busy'[q]
    {
      if b != a { assert LastWriter(h, c, b) == LastWriter(h, n, b) != p; }
    }
    forall i | 0 <= i < |sh'| && sh'[i].nra ensures sh'[i].arf > 0 && LastWriter(h, c + 1, sh'[i].arf) == i {
      if i != p { assert sh'[i].arf == sh[i].arf != a; }
    }
  }

  lemma CommittedSnapshot(es: seq<Entry>, busy: seq<bool>, h: seq<Flight>, c: nat,
                          vs: seq<bool>, bs: seq<bool>, n: nat)
    requires |busy| == |es| == |vs| == |bs| && InFlight(es, busy, h, c)
    requires c < n <= |h| && 0 <= h[c].dst < |es| && Snapshot(es, vs, bs, h, c, n)
    ensures Snapshot(Released(es, busy, h[c].insn.dst), vs, bs[h[c].dst := false], h, c + 1, n)
  {
    var es' := Released(es, busy, h[c].insn.dst);
    forall i | 0 <= i < |es|
      ensures (vs[i] <==> Maps(es', h, n, i)) && (bs[h[c].dst := false][i] <==> Pending(h, c + 1, n, i))
    {
      assert vs[i] <==> Maps(es, h, n, i);
      PendingAfterCommit(h, c, n, i);
    }
  }

  lemma RefAfter(h: seq<Flight>, c: nat, a: nat)
    requires c < |h| && a != 0
    ensures RefRead(Ref(h, c + 1), a) ==
            if a == h[c].insn.dst
            then Alu(h[c].insn, RefRead(Ref(h, c), h[c].insn.src1), RefRead(Ref(h, c), h[c].insn.src2))
            else RefRead(Ref(h, c), a)
  {
  }

  lemma CommittedValues(es: seq<Entry>, busy: seq<bool>, sh: seq<Entry>, h: seq<Flight>, c: nat,
                        prfs: seq<Word>, latch: seq<Latch>)
    requires |busy| == |es| == |sh| == |prfs| && |latch| == |h| && c < |h|
    requires Committed(es, busy, sh, h, c) && Holds(es, busy, h[c]) && 0 <= h[c].dst
    requires Values(prfs, h, c) && Latched(latch, h, c) && latch[c].val1.Some? && latch[c].val2.Some?
    ensures Values(prfs[h[c].dst := Result(h[c], latch[c])], h, c + 1)
  {
    var n, p := c + 1, h[c].dst;
    var prfs' := prfs[p := Result(h[c], latch[c])];
    forall a: nat | a != 0
      ensures var q := LastWriter(h, n, a);
              -1 <= q < |prfs'| && Operand(prfs', q) == RefRead(Ref(h, n), a)
    {
      RefAfter(h, c, a);
      var q := LastWriter(h, c, a);
      assert -1 <= q < |prfs| && Operand(prfs, q) == RefRead(Ref(h, c), a);
    }
  }

  lemma CommittedOrphans(es: seq<Entry>, busy: seq<bool>, sh: seq<Entry>, h: seq<Flight>, c: nat)
    requires Tables(es, busy, sh, h, c) && c < |h| && 0 <= h[c].dst < |es| && NoOrphans(es, busy, sh)
    ensures NoOrphans(Released(es, busy, h[c].insn.dst), busy[h[c].dst := false],
                      Shadowed(sh, h[c].insn.dst, h[c].dst))
  {
    assert Holds(es, busy, h[c]);
  }

  lemma CommittedSaved(s: Core)
    requires Inv(s) && CanCommit(s) && s.hist[s.c].dst >= 0
    ensures var r := CommittedOne(s); Saved(r.rat.entries, r.rat.cks, r.sb.cks, r.marks, r.hist, r.c)
  {
    var es, busy, h, c, r := s.rat.entries, s.sb.busy, s.hist, s.c, CommittedOne(s);
    assert Holds(es, busy, h[c]);
    forall k | 0 <= k < |s.marks| && Live(s.marks[k], h, c + 1)
      ensures Snapshot(r.rat.entries, r.rat.cks[k], r.sb.cks[k], h, c + 1, s.marks[k].value)
    {
      assert Live(s.marks[k], h, c);
      CommittedSnapshot(es, busy, h, c, s.rat.cks[k], s.sb.cks[k], s.marks[k].value);
    }
  }

  /** The invariant from its parts. */
  lemma Assembled(s: Core)
    requires Sized(s) && Tables(s.rat.entries, s.sb.busy, s.sh.entries, s.hist, s.c)
    requires Saved(s.rat.entries, s.rat.cks, s.sb.cks, s.marks, s.hist, s.c)
    requires Sources(s.hist, s.c) && Latched(s.latch, s.hist, s.c) && Values(s.prf.prfs, s.hist, s.c)
    requires s.clean ==> NoOrphans(s.rat.entries, s.sb.busy, s.sh.entries)
    ensures Inv(s)
  {
  }

  /** What committing changes of the registers the values depend on. */
  ghost predicate CommittedShape(s: Core, r: Core)
    requires Sized(s) && CanCommit(s) && s.hist[s.c].dst >= 0
  {
    var f := s.hist[s.c];
    && r.rat.entries == Released(s.rat.entries, s.sb.busy, f.insn.dst)
    && r.sb.busy == s.sb.busy[f.dst := false]
    && r.sh.entries == Shadowed(s.sh.entries, f.insn.dst, f.dst)
    && r.prf.prfs == s.prf.prfs[f.dst := Result(f, s.latch[s.c])]
    && r.hist == s.hist && r.latch == s.latch && r.c == s.c + 1 && r.clean == s.clean
  }

  lemma CommittedHasShape(s: Core)
    requires Sized(s) && CanCommit(s) && s.hist[s.c].dst >= 0
    requires s.rat.entries[s.hist[s.c].dst].arf == s.hist[s.c].insn.dst
    ensures CommittedShape(s, CommittedOne(s))
  {
  }

  lemma CommittedTail(h: seq<Flight>, latch: seq<Latch>, c: nat)
    requires |latch| == |h| && c < |h| && Sources(h, c) && Latched(latch, h, c)
    ensures Sources(h, c + 1) && Latched(latch, h, c + 1)
  {
  }

  lemma CommittedInv(s: Core)
    requires Inv(s) && CanCommit(s)
    ensures Inv(CommittedOne(s))
  {
    if s.hist[s.c].dst < 0 { EmptyCommitInv(s); }
    else {
      assert Holds(s.rat.entries, s.sb.busy, s.hist[s.c]);
      CommittedHasShape(s);
      var r := CommittedOne(s);
      CommittedMapping(s, r);
      CommittedResults(s, r);
      CommittedSaved(s);
      Assembled(r);
    }
  }

  lemma CommittedMapping(s: Core, r: Core)
    requires Sized(s) && Tables(s.rat.entries, s.sb.busy, s.sh.entries, s.hist, s.c)
    requires CanCommit(s) && s.hist[s.c].dst >= 0 && CommittedShape(s, r)
    requires s.clean ==> NoOrphans(s.rat.entries, s.sb.busy, s.sh.entries)
    ensures Tables(r.rat.entries, r.sb.busy, r.sh.entries, r.hist, r.c)
    ensures r.clean ==> NoOrphans(r.rat.entries, r.sb.busy, r.sh.entries)
  {
    CommittedTables(s.rat.entries, s.sb.busy, s.sh.entries, s.hist, s.c);
    if s.clean { CommittedOrphans(s.rat.entries, s.sb.busy, s.sh.entries, s.hist, s.c); }
  }

  lemma CommittedResults(s: Core, r: Core)
    requires Sized(s) && CanCommit(s) && s.hist[s.c].dst >= 0 && CommittedShape(s, r)
    requires Committed(s.rat.entries, s.sb.busy, s.sh.entries, s.hist, s.c)
    requires Holds(s.rat.entries, s.sb.busy, s.hist[s.c])
    requires Sources(s.hist, s.c) && Latched(s.latch, s.hist, s.c) && Values(s.prf.prfs, s.hist, s.c)
    ensures |r.latch| == |r.hist| && r.c <= |r.hist|
    ensures Sources(r.hist, r.c) && Latched(r.latch, r.hist, r.c) && Values(r.prf.prfs, r.hist, r.c)
  {
    assert Values(r.prf.prfs, r.hist, r.c) by {
      CommittedValues(s.rat.entries, s.sb.busy, s.sh.entries, s.hist, s.c, s.prf.prfs, s.latch);
    }
    CommittedTail(s.hist, s.latch, s.c);
  }

  /** Committing an instruction that writes register 0 changes no table and no value. */
  lemma EmptyCommitTables(es: seq<Entry>, busy: seq<bool>, sh: seq<Entry>, h: seq<Flight>, c: nat, prfs: seq<Word>)
    requires Tables(es, busy, sh, h, c) && c < |h| && h[c].dst < 0 && Values(prfs, h, c)
    ensures Tables(es, busy, sh, h, c + 1) && Values(prfs, h, c + 1)
  {
    assert Holds(es, busy, h[c]);
    var n := c + 1;
    assert forall a :: LastWriter(h, n, a) == LastWriter(h, c, a);
    assert Ref(h, n) == Ref(h, c);
    assert InFlight(es, busy, h, n) by {
      forall q | 0 <= q < |busy| && busy[q] ensures Pending(h, n, |h|, q) {
        PendingAfterCommit(h, c, |h|, q);
      }
    }
    assert Committed(es, busy, sh, h, n);
  }

  lemma EmptyCommitSnapshot(es: seq<Entry>, vs: seq<bool>, bs: seq<bool>, h: seq<Flight>, c: nat, n: nat)
    requires |vs| == |es| == |bs| && c < n <= |h| && h[c].dst < 0 && Snapshot(es, vs, bs, h, c, n)
    ensures Snapshot(es, vs, bs, h, c + 1, n)
  {
    forall i | 0 <= i < |es| ensures (vs[i] <==> Maps(es, h, n, i)) && (bs[i] <==> Pending(h, c + 1, n, i)) {
      PendingAfterCommit(h, c, n, i);
    }
  }

  lemma EmptyCommitSaved(es: seq<Entry>, vcks: seq<seq<bool>>, bcks: seq<seq<bool>>, marks: seq<Option<nat>>,
                         h: seq<Flight>, c: nat)
    requires |vcks| == |bcks| == |marks| && c < |h| && h[c].dst < 0
    requires forall k :: 0 <= k < |vcks| ==> |vcks[k]| == |es|
    requires forall k :: 0 <= k < |bcks| ==> |bcks[k]| == |es|
    requires Saved(es, vcks, bcks, marks, h, c)
    ensures Saved(es, vcks, bcks, marks, h, c + 1)
  {
    forall k | 0 <= k < |marks| && Live(marks[k], h, c + 1)
      ensures Snapshot(es, vcks[k], bcks[k], h, c + 1, marks[k].value)
    {
      assert Live(marks[k], h, c);
      EmptyCommitSnapshot(es, vcks[k], bcks[k], h, c, marks[k].value);
    }
  }

  lemma EmptyCommitParts(s: Core)
    requires Sized(s) && CanCommit(s) && s.hist[s.c].dst < 0
    requires Tables(s.rat.entries, s.sb.busy, s.sh.entries, s.hist, s.c) && Values(s.prf.prfs, s.hist, s.c)
    requires Saved(s.rat.entries, s.rat.cks, s.sb.cks, s.marks, s.hist, s.c)
    requires Sources(s.hist, s.c) && Latched(s.latch, s.hist, s.c)
    ensures var c := s.c + 1;
            && Tables(s.rat.entries, s.sb.busy, s.sh.entries, s.hist, c) && Values(s.prf.prfs, s.hist, c)
            && Saved(s.rat.entries, s.rat.cks, s.sb.cks, s.marks, s.hist, c)
            && Sources(s.hist, c) && Latched(s.latch, s.hist, c)
  {
    EmptyCommitTables(s.rat.entries, s.sb.busy, s.sh.entries, s.hist, s.c, s.prf.prfs);
    EmptyCommitSaved(s.rat.entries, s.rat.cks, s.sb.cks, s.marks, s.hist, s.c);
    CommittedTail(s.hist, s.latch, s.c);
  }

  lemma EmptyCommitInv(s: Core)
    requires Inv(s) && CanCommit(s) && s.hist[s.c].dst < 0
    ensures Inv(CommittedOne(s))
  {
    EmptyCommitParts(s);
    AdvancedInv(s);
  }

  lemma AdvancedInv(s: Core)
    requires Sized(s) && CanCommit(s) && s.hist[s.c].dst < 0
    requires Tables(s.rat.entries, s.sb.busy, s.sh.entries, s.hist, s.c + 1) && Values(s.prf.prfs, s.hist, s.c + 1)
    requires Saved(s.rat.entries, s.rat.cks, s.sb.cks, s.marks, s.hist, s.c + 1)
    requires Sources(s.hist, s.c + 1) && Latched(s.latch, s.hist, s.c + 1)
    requires s.clean ==> NoOrphans(s.rat.entries, s.sb.busy, s.sh.entries)
    ensures Inv(CommittedOne(s))
  {
    Assembled(s.(c := s.c + 1));
  }

  lemma RestoredTables(es: seq<Entry>, busy: seq<bool>, sh: seq<Entry>, h: seq<Flight>, c: nat,
                       vs: seq<bool>, bs: seq<bool>, m: nat)
    requires Tables(es, busy, sh, h, c) && c <= m <= |h|
    requires |vs| == |es| == |bs| && Snapshot(es, vs, bs, h, c, m)
    ensures Tables(Revalidated(es, vs), bs, sh, h[..m], c)
    ensures forall i :: 0 <= i < |es| && bs[i] ==> busy[i]
  {
    var es', h' := Revalidated(es, vs), h[..m];
    Extension(h', h);
    PendingInPrefix(h, c, m);
    forall i | 0 <= i < |es| && bs[i] ensures busy[i] {
      var j :| c <= j < m && h[j].dst == i;
      assert Holds(es, busy, h[j]);
    }
    assert InFlight(es', bs, h', c) by {
      forall j | c <= j < |h'| ensures Holds(es', bs, h'[j]) {
        assert Holds(es, busy, h[j]);
        if h[j].dst >= 0 { assert Pending(h, c, m, h[j].dst); }
      }
    }
    assert Committed(es', bs, sh, h', c);
    forall i | 0 <= i < |es| ensures es'[i].v <==> Maps(es', h', m, i) {
      assert vs[i] <==> Maps(es, h, m, i);
    }
  }

  lemma RestoredSnapshot(es: seq<Entry>, h: seq<Flight>, c: nat, m: nat, us: seq<bool>,
                         vs: seq<bool>, bs: seq<bool>, n: nat)
    requires |us| == |vs| == |es| == |bs| && c <= n <= m <= |h| && Snapshot(es, vs, bs, h, c, n)
    ensures Snapshot(Revalidated(es, us), vs, bs, h[..m], c, n)
  {
    var es' := Revalidated(es, us);
    Extension(h[..m], h);
    PendingInPrefix(h, c, m);
    forall i | 0 <= i < |es|
      ensures (vs[i] <==> Maps(es', h[..m], n, i)) && (bs[i] <==> Pending(h[..m], c, n, i))
    {
      assert vs[i] <==> Maps(es, h, n, i);
    }
  }

  lemma RestoredInv(s: Core, k: nat)
    requires Inv(s) && k < |s.marks| && Live(s.marks[k], s.hist, s.c)
    ensures Inv(Restored(s, k))
  {
    var es, busy, sh, h, c := s.rat.entries, s.sb.busy, s.sh.entries, s.hist, s.c;
    var r, m := Restored(s, k), s.marks[k].value;
    Extension(h[..m], h);
    RestoredTables(es, busy, sh, h, c, s.rat.cks[k], s.sb.cks[k], m);
    forall j | 0 <= j < |r.marks| && Live(r.marks[j], r.hist, c)
      ensures Snapshot(r.rat.entries, r.rat.cks[j], r.sb.cks[j], r.hist, c, r.marks[j].value)
    {
      assert Live(s.marks[j], h, c);
      RestoredSnapshot(es, h, c, m, s.rat.cks[k], s.rat.cks[j], s.sb.cks[j], s.marks[j].value);
    }
    if r.clean {
      assert r.hist == h;
      forall i | 0 <= i < |es| ensures r.sb.busy[i] == busy[i] { BusyIsPending(es, busy, h, c, i); }
    }
  }

  lemma PendingInPrefix(h: seq<Flight>, c: nat, m: nat)
    requires m <= |h|
    ensures forall n: nat, i :: n <= m ==> (Pending(h[..m], c, n, i) <==> Pending(h, c, n, i))
  {
    forall n: nat, i | n <= m ensures Pending(h[..m], c, n, i) <==> Pending(h, c, n, i) {
      if k :| c <= k < n && h[k].dst == i { assert h[..m][k].dst == i; }
      if k :| c <= k < n && h[..m][k].dst == i { assert h[k].dst == i; }
    }
  }

  lemma SyncedInv(s: Core)
    requires Inv(s) && s.c == |s.hist|
    ensures Inv(Synced(s))
  {
    var es, busy, sh, h, c := s.rat.entries, s.sb.busy, s.sh.entries, s.hist, s.c;
    var es' := Synced(s).rat.entries;
    assert Committed(es', busy, sh, h, c);
    forall i | 0 <= i < |es| ensures es'[i].v <==> Maps(es', h, |h|, i) {
      assert es[i].v <==> Maps(es, h, |h|, i);
    }
    forall k | 0 <= k < |s.marks| && Live(s.marks[k], h, c)
      ensures Snapshot(es', s.rat.cks[k], s.sb.cks[k], h, c, s.marks[k].value)
    {
      assert Snapshot(es, s.rat.cks[k], s.sb.cks[k], h, c, s.marks[k].value);
      assert forall i :: 0 <= i < |es| ==> (Maps(es', h, s.marks[k].value, i) <==> Maps(es, h, s.marks[k].value, i));
    }
  }
}
