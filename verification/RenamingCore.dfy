/** The renaming machine built from its components, driven one cycle at a time. */
module RenamingCores {
  import opened Wrappers
  import opened RegisterFiles
  import opened Instructions
  import opened Scoreboards
  import opened AliasTables
  import opened ShadowTables
  import opened Renaming
  import opened RenamingCycle

  class RenamingCore {
    const rat: RegisterAliasTable
    const shadow: ShadowRegisterAliasTable
    const board: Scoreboard
    const registers: PhysicalRegisterFile

    // The history of the protocol.
    ghost var hist: seq<Flight>
    ghost var latch: seq<Latch>
    ghost var c: nat
    ghost var marks: seq<Option<nat>>
    ghost var clean: bool

    ghost predicate Valid()
      reads this, rat, board, registers
    {
      && rat.Valid() && shadow.Valid() && board.Valid() && registers.Valid()
      && rat.scoreboard == board
      && shadow.entries.Length == rat.entries.Length && registers.prfs.Length == rat.entries.Length
      && shadow.entries != rat.entries && shadow.modification != rat.modification
      && registers.prfs as object !in Tables()
    }

    /** The arrays of the tables, none of which is the register file. */
    ghost function Tables(): set<object>
      reads this
    {
      {rat.entries, rat.modification, rat.checkpoints, shadow.entries, shadow.modification,
       board.busy, board.modification, board.checkpoints}
    }

    ghost function Model(): Core
      requires Valid()
      reads this, rat, rat.entries, rat.modification, rat.checkpoints, shadow.entries, shadow.modification
      reads board, board.busy, board.modification, board.checkpoints, registers, registers.prfs
    {
      Core(rat.Model(), shadow.Model(), board.Model(), registers.Model(), hist, latch, c, marks, clean)
    }

    constructor (size: nat, checkpoints: nat)
      ensures Valid() && Model() == Initial(size, checkpoints)
    {
      var b := new Scoreboard(size, checkpoints);
      board := b;
      rat := new RegisterAliasTable(b, checkpoints);
      shadow := new ShadowRegisterAliasTable(size);
      registers := new PhysicalRegisterFile(size);
      hist, latch, c, clean := [], [], 0, true;
      marks := seq(checkpoints, k => None);
    }

    /** Looks up the sources, then claims a register for the destination and marks it busy. */
    method Rename(insn: Insn) returns (ok: bool, dst: int, src1: int, src2: int)
      requires Valid()
      modifies rat.modification, board.modification
      ensures Valid()
      ensures var t := old(Model()).rat.Touch(true, insn.dst);
              && ok == t.ok && dst == (if t.prf.Some? then t.prf.value else -1)
              && src1 == Alias(old(Model()).rat.entries, insn.src1)
              && src2 == Alias(old(Model()).rat.entries, insn.src2)
              && Model() == old(Model()).(rat := t.table,
                   sb := if dst >= 0 then old(Model()).sb.TakeOff(dst) else old(Model()).sb)
    {
      ghost var m := Model();
      src1 := rat.GetAliasPRF(insn.src1);
      src2 := rat.GetAliasPRF(insn.src2);
      ok, dst := rat.Touch(true, insn.dst);
      assert board.Model() == m.sb && shadow.Model() == m.sh && registers.Model() == m.prf;
      ghost var t := rat.Model();
      if dst >= 0 {
        board.TakeOff(dst);
        assert rat.Model() == t && shadow.Model() == m.sh && registers.Model() == m.prf;
      }
    }

    /** Writes the result, lands the register and releases what it supersedes. */
    method Commit(prf: int, arf: nat, value: Word)
      requires Valid() && -1 <= prf < rat.entries.Length
      modifies rat.modification, board.modification, shadow.modification, registers
      ensures Valid()
      ensures Model() == CommitStaged(old(Model()), prf, arf, value)
    {
      if prf >= 0 {
        registers.Set(prf, value);
        board.Land(prf);
        rat.Commit(prf);
        shadow.Commit(prf, arf);
      }
    }

    /** Reads an operand of instruction k. */
    method ReadOperand(ghost k: nat, ghost second: bool, prf: int) returns (value: Word)
      requires Valid() && Sized(Model()) && Readable(Model(), k, second)
      requires prf == if second then hist[k].src2 else hist[k].src1
      modifies this`latch
      ensures Valid() && value == Operand(old(Model()).prf.prfs, prf)
      ensures Model() == Read(old(Model()), k, second)
    {
      if prf < 0 { value := 0; } else { value := registers.Get(prf); }
      latch := Read(Model(), k, second).latch;
    }

    /** Stages the NRA synchronisation. */
    method Synchronise()
      requires Valid()
      modifies rat.modification
      ensures Valid() && Model() == old(Model().(rat := Model().rat.SyncNRA(Model().sh.NraBits())))
    {
      ghost var m := Model();
      assert shadow.NraBits() == m.sh.NraBits();
      rat.SyncNRA(shadow);
      assert board.Model() == m.sb && shadow.Model() == m.sh && registers.Model() == m.prf;
    }

    /** Stages the checkpoint requests of a cycle in which none is staged yet. */
    method RequestCheckpoints(alloc: int, restore: int)
      requires Valid()
      requires rat.checkpoints.Length0 == board.checkpoints.Length0
      requires rat.checkpointAllocate == rat.checkpointRestore == -1
      requires board.checkpointAllocate == board.checkpointRestore == -1
      requires -1 <= alloc < rat.checkpoints.Length0 && -1 <= restore < rat.checkpoints.Length0
      modifies rat`checkpointAllocate, rat`checkpointRestore, board`checkpointAllocate, board`checkpointRestore
      ensures Valid()
      ensures Model() == old(Model()).(rat := old(Model()).rat.(alloc := alloc, restore := restore),
                                       sb := old(Model()).sb.(alloc := alloc, restore := restore))
    {
      ghost var m := Model();
      if alloc != -1 {
        rat.AllocateCheckpoint(alloc);
        board.AllocateCheckpoint(alloc);
      }
      if restore != -1 {
        rat.RestoreCheckpoint(restore);
        board.RestoreCheckpoint(restore);
      }
      assert shadow.Model() == m.sh && registers.Model() == m.prf;
      assert Rows(rat.checkpoints) == m.rat.cks && Rows(board.checkpoints) == m.sb.cks;
    }

    /** The clock edge: everything staged takes effect. */
    method Tick()
      requires Valid()
      modifies rat, rat.entries, rat.modification, rat.checkpoints, shadow.entries, shadow.modification
      modifies board, board.busy, board.modification, board.checkpoints, registers, registers.prfs
      ensures Valid()
      ensures Model() == old(Model()).(rat := old(Model()).rat.Next(), sb := old(Model()).sb.Next(),
                                       sh := old(Model()).sh.Next(), prf := old(Model()).prf.Next())
    {
      ghost var m := Model();
      board.Eval();
      assert rat.Model() == m.rat && shadow.Model() == m.sh && registers.Model() == m.prf;
      rat.Eval();
      assert board.Model() == m.sb.Next() && shadow.Model() == m.sh && registers.Model() == m.prf;
      shadow.Eval();
      assert board.Model() == m.sb.Next() && rat.Model() == m.rat.Next() && registers.Model() == m.prf;
      registers.Eval();
      assert board.Model() == m.sb.Next() && rat.Model() == m.rat.Next() && shadow.Model() == m.sh.Next();
    }

    /** Stages the rename of a cycle, if there is one. */
    method StageRename(rename: Option<Insn>)
      requires Valid() && Sized(Model())
      modifies rat.modification, board.modification
      ensures Valid() && Model() == RenameStaged(old(Model()), rename)
    {
      if rename.Some? {
        var ok, dst, src1, src2 := Rename(rename.value);
      }
    }

    /** Stages everything a cycle does. */
    method Stage(rename: Option<Insn>, prf: int, arf: nat, value: Word, alloc: int, restore: int, sync: bool)
      requires Valid() && Sized(Model()) && -1 <= prf < rat.entries.Length
      requires -1 <= alloc < rat.checkpoints.Length0 && -1 <= restore < rat.checkpoints.Length0
      modifies rat, rat.modification, board, board.modification, shadow.modification, registers
      ensures Valid()
      ensures Model() == Staged(old(Model()), rename, prf, arf, value, alloc, restore, sync)
    {
      ghost var m := Model();
      StageRename(rename);
      Commit(prf, arf, value);
      assert Model() == CommitStaged(RenameStaged(m, rename), prf, arf, value);
      if sync {
        Synchronise();
      }
      RequestCheckpoints(alloc, restore);
    }

    /** Stages everything a cycle does and clocks the components. */
    method Advance(rename: Option<Insn>, prf: int, arf: nat, value: Word, alloc: int, restore: int, sync: bool)
      requires Valid() && Sized(Model()) && -1 <= prf < rat.entries.Length
      requires -1 <= alloc < rat.checkpoints.Length0 && -1 <= restore < rat.checkpoints.Length0
      modifies rat, rat.entries, rat.modification, rat.checkpoints, shadow.entries, shadow.modification
      modifies board, board.busy, board.modification, board.checkpoints, registers, registers.prfs
      ensures Valid()
      ensures var s := Staged(old(Model()), rename, prf, arf, value, alloc, restore, sync);
              Model() == old(Model()).(rat := s.rat.Next(), sb := s.sb.Next(), sh := s.sh.Next(), prf := s.prf.Next())
    {
      Stage(rename, prf, arf, value, alloc, restore, sync);
      Tick();
    }

    /** One clock cycle. The committing instruction, if any, is the oldest one in flight. */
    method Cycle(rename: Option<Insn>, commit: bool, prf: int, arf: nat, value: Word,
                 alloc: int, restore: int, sync: bool)
      requires Valid()
      requires Fits(Model(), Input(rename, commit, alloc, restore, sync))
      requires if commit then prf == hist[c].dst && arf == hist[c].insn.dst && value == Result(hist[c], latch[c])
               else prf == -1
      modifies this, rat, rat.entries, rat.modification, rat.checkpoints, shadow.entries, shadow.modification
      modifies board, board.busy, board.modification, board.checkpoints, registers, registers.prfs
      ensures Valid()
      ensures Model() == old(Clock(Model(), Input(rename, commit, alloc, restore, sync)))
    {
      ghost var m, i := Model(), Input(rename, commit, alloc, restore, sync);
      ClockOfStages(m, i, prf, arf, value);
      Advance(rename, prf, arf, value, alloc, restore, sync);
      Record(Clock(m, i));
    }

    /** Takes the bookkeeping of the protocol over from the given state. */
    ghost method Record(next: Core)
      requires Valid()
      modifies this`hist, this`latch, this`c, this`marks, this`clean
      ensures Valid()
      ensures Model() == next.(rat := old(Model()).rat, sb := old(Model()).sb,
                               sh := old(Model()).sh, prf := old(Model()).prf)
    {
      hist, latch, c, marks, clean := next.hist, next.latch, next.c, next.marks, next.clean;
    }
  }

  ghost function Staged(m: Core, rename: Option<Insn>, prf: int, arf: nat, value: Word,
                        alloc: int, restore: int, sync: bool): (r: Core)
    requires Sized(m) && -1 <= prf < |m.rat.entries|
    requires -1 <= alloc < |m.rat.cks| && -1 <= restore < |m.rat.cks|
    ensures r.rat.Valid() && r.sb.Valid() && r.sh.Valid() && r.prf.Valid()
  {
    var s := CommitStaged(RenameStaged(m, rename), prf, arf, value);
    var t := if sync then s.rat.SyncNRA(s.sh.NraBits()) else s.rat;
    s.(rat := t.(alloc := alloc, restore := restore), sb := s.sb.(alloc := alloc, restore := restore))
  }

  ghost function RenameStaged(m: Core, rename: Option<Insn>): (r: Core)
    requires Sized(m)
    ensures r.rat.Valid() && |r.rat.entries| == |m.rat.entries| && r.sb.Valid() && r.sb.busy == m.sb.busy
    ensures r == m.(rat := r.rat, sb := r.sb) && r.rat == m.rat.(mods := r.rat.mods) && r.sb == m.sb.(mods := r.sb.mods)
  {
    var touch := if rename.Some? then m.rat.Touch(true, rename.value.dst) else Touched(m.rat, false, None);
    m.(rat := touch.table, sb := if touch.prf.Some? then m.sb.TakeOff(touch.prf.value) else m.sb)
  }

  ghost function CommitStaged(m: Core, prf: int, arf: nat, value: Word): (r: Core)
    requires m.rat.Valid() && m.sb.Valid() && m.sh.Valid() && |m.sb.busy| == |m.rat.entries| == |m.sh.entries|
    requires -1 <= prf < |m.rat.entries|
    ensures r.rat.Valid() && r.sb.Valid() && r.sh.Valid()
    ensures r.rat == m.rat.(mods := r.rat.mods) && r.sb == m.sb.(mods := r.sb.mods) && r.sh == m.sh.(mods := r.sh.mods)
    ensures m.prf.Valid() && |m.prf.prfs| == |m.rat.entries| ==> r.prf.Valid()
  {
    if prf < 0 then m
    else m.(rat := m.rat.Commit(m.sb.busy, prf), sb := m.sb.Land(prf), sh := m.sh.Commit(prf, arf),
            prf := m.prf.Set(prf, value))
  }

  /** Clocking what the stages of a cycle have left is the cycle. */
  lemma ClockOfStages(m: Core, i: Input, prf: int, arf: nat, value: Word)
    requires Fits(m, i)
    requires if i.commit then prf == m.hist[m.c].dst && arf == m.hist[m.c].insn.dst
                              && value == Result(m.hist[m.c], m.latch[m.c])
             else prf == -1
    ensures var s, r := Staged(m, i.rename, prf, arf, value, i.alloc, i.restore, i.sync), Clock(m, i);
            r.rat == s.rat.Next() && r.sb == s.sb.Next() && r.sh == s.sh.Next() && r.prf == s.prf.Next()
  {
    assert m.sh.NraBits() == CommitStaged(RenameStaged(m, i.rename), prf, arf, value).sh.NraBits();
  }
}
