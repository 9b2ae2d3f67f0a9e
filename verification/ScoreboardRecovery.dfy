/** What a scoreboard checkpoint remembers over any run of cycles. */
module ScoreboardRecovery {
  import opened Wrappers
  import opened Scoreboards

  datatype Call = Land(index: nat) | TakeOff(index: nat)

  /** One clock cycle: the calls in the order they are made, then the checkpoint requests. */
  datatype Cycle = Cycle(calls: seq<Call>, alloc: int, restore: int) {
    ghost predicate Fits(size: nat, checkpoints: nat) {
      && -1 <= alloc < checkpoints
      && -1 <= restore < checkpoints
      && forall c :: 0 <= c < |calls| ==> calls[c].index < size
    }
  }

  ghost predicate AllFit(cycles: seq<Cycle>, size: nat, checkpoints: nat) {
    forall c :: 0 <= c < |cycles| ==> cycles[c].Fits(size, checkpoints)
  }

  function Stage(b: Board, calls: seq<Call>): (r: Board)
    requires b.Valid() && forall c :: 0 <= c < |calls| ==> calls[c].index < |b.busy|
    ensures r.Valid() && r == b.(mods := r.mods)
  {
    if calls == [] then b
    else
      var before := Stage(b, calls[..|calls| - 1]);
      match calls[|calls| - 1]
      case Land(i) => before.Land(i)
      case TakeOff(i) => before.TakeOff(i)
  }

  ghost function Run(b: Board, cycles: seq<Cycle>): (r: Board)
    requires b.Valid() && b.Idle() && AllFit(cycles, |b.busy|, |b.cks|)
    ensures r.Valid() && r.Idle() && |r.busy| == |b.busy| && |r.cks| == |b.cks|
  {
    if cycles == [] then b
    else
      var before := Run(b, cycles[..|cycles| - 1]);
      var last := cycles[|cycles| - 1];
      Stage(before, last.calls).(alloc := last.alloc, restore := last.restore).Next()
  }

  ghost predicate Landed(cycles: seq<Cycle>, i: nat) {
    exists c :: 0 <= c < |cycles| && Call.Land(i) in cycles[c].calls
  }

  /** However calls on one register follow each other in a cycle, a landing among them is noted. */
  lemma {:induction false} StagedLanding(b: Board, calls: seq<Call>, i: nat)
    requires b.Valid() && b.Idle() && forall c :: 0 <= c < |calls| ==> calls[c].index < |b.busy|
    requires i < |b.busy|
    ensures var m := Stage(b, calls).mods[i];
            (m.busy.Some? && m.land) == (Call.Land(i) in calls) && (m.land ==> m.busy.Some?)
  {
    if calls != [] {
      var front, last := calls[..|calls| - 1], calls[|calls| - 1];
      StagedLanding(b, front, i);
      assert calls == front + [last];
    }
  }

  /** What the last call on register i in a cycle makes of its busy bit, if there is one. */
  function LastCall(calls: seq<Call>, i: nat): Option<bool> {
    if calls == [] then None
    else if calls[|calls| - 1].index == i then Some(calls[|calls| - 1].TakeOff?)
    else LastCall(calls[..|calls| - 1], i)
  }

  /** In a cycle without a restore the last call on a register decides whether it is busy. */
  lemma {:induction false} LastCallStands(b: Board, calls: seq<Call>, alloc: int, i: nat)
    requires b.Valid() && b.Idle() && forall c :: 0 <= c < |calls| ==> calls[c].index < |b.busy|
    requires i < |b.busy| && -1 <= alloc < |b.cks|
    ensures Stage(b, calls).mods[i].busy == LastCall(calls, i)
    ensures Stage(b, calls).(alloc := alloc).Next().busy[i] ==
            match LastCall(calls, i) case Some(v) => v case None => b.busy[i]
  {
    if calls != [] { LastCallStands(b, calls[..|calls| - 1], alloc, i); }
  }

  lemma {:induction false} CheckpointTracksLandings(b: Board, cycles: seq<Cycle>, k: nat, i: nat)
    requires b.Valid() && b.Idle() && AllFit(cycles, |b.busy|, |b.cks|)
    requires k < |b.cks| && i < |b.busy|
    requires cycles != [] && cycles[0].alloc == k
    requires forall c :: 0 < c < |cycles| ==> cycles[c].alloc != k
    ensures Run(b, cycles).cks[k][i] == (b.busy[i] && !Landed(cycles, i))
  {
    var front, last := cycles[..|cycles| - 1], cycles[|cycles| - 1];
    var before := Run(b, front);
    StagedLanding(before, last.calls, i);
    assert cycles == front + [last];
    assert Landed(cycles, i) == (Landed(front, i) || Call.Land(i) in last.calls) by {
      if Call.Land(i) in last.calls { assert cycles[|cycles| - 1] == last; }
      if Landed(front, i) {
        var c :| 0 <= c < |front| && Call.Land(i) in front[c].calls;
        assert cycles[c] == front[c];
      }
    }
    if front != [] {
      CheckpointTracksLandings(b, front, k, i);
    }
  }

  /** Restoring a checkpoint: a register is busy afterwards exactly when it was busy at the start
      of the allocating cycle and has not landed in any cycle from that one through the restoring
      one, whatever was taken off, and whatever else was allocated or restored, in between. */
  lemma RestoredBusyBits(b: Board, cycles: seq<Cycle>, k: nat, i: nat, r: Board)
    requires b.Valid() && b.Idle() && AllFit(cycles, |b.busy|, |b.cks|) && r == Run(b, cycles)
    requires k < |b.cks| && i < |b.busy|
    requires cycles != [] && cycles[0].alloc == k && cycles[|cycles| - 1].restore == k
    requires forall c :: 0 < c < |cycles| ==> cycles[c].alloc != k
    ensures |r.busy| == |b.busy| && (r.busy[i] <==> b.busy[i] && !Landed(cycles, i))
  {
    CheckpointTracksLandings(b, cycles, k, i);
  }
}
