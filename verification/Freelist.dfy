/** The reference model of the checkpointed free list: banks of physical registers, each owned by one
    fetch group (FGR), which are filled by pushes, given back by commits and drained by pops after their
    group is abandoned. Calls stage their effect in the next-value fields; `Eval` applies it. */
module Freelists {
  import opened Wrappers

  datatype State = Invalid | Live | Abandoned

  // What is staged for the words of a bank: a value of 0 or more is pushed.
  const NEXT_NOP := -1
  const NEXT_POP := -2
  const NEXT_CLEAR := -3

  const CAPACITY := 4

  /** A bank; `words` has the latest push first, pops come from its end. */
  datatype Bank = Bank(words: seq<int>, fgr: int, state: State, nextBank: int, nextFgr: int, nextState: State)

  // ---- The calls of a cycle ----------------------------------------------------------------------

  function Owned(b: Bank, fgr: int): bool {
    b.state.Live? && b.fgr == fgr
  }

  /** A bank takes a push for the group: it is invalid, or the group's own and not full. */
  predicate Takes(b: Bank, fgr: int) {
    b.state.Invalid? || (Owned(b, fgr) && |b.words| < CAPACITY)
  }

  /** The first bank from i on that takes a push for the group; -1 if there is none. */
  function PushTarget(bs: seq<Bank>, fgr: int, i: nat): (r: int)
    requires i <= |bs|
    ensures r == -1 || i <= r < |bs|
    ensures r >= 0 ==> bs[r].state.Invalid? || (bs[r].state.Live? && bs[r].fgr == fgr && |bs[r].words| < 4)
    ensures forall j :: i <= j < (if r < 0 then |bs| else r) ==>
              bs[j].state.Abandoned? || (bs[j].state.Live? && (bs[j].fgr != fgr || |bs[j].words| >= 4))
    decreases |bs| - i
  {
    if i == |bs| then -1
    else if Takes(bs[i], fgr) then i
    else PushTarget(bs, fgr, i + 1)
  }

  function Push(bs: seq<Bank>, fgr: int, value: int): (r: (seq<Bank>, bool))
    ensures |r.0| == |bs|
  {
    var t := PushTarget(bs, fgr, 0);
    if t < 0 then (bs, false)
    else if bs[t].state.Invalid? then (bs[t := bs[t].(nextFgr := fgr, nextBank := value, nextState := Live)], true)
    else (bs[t := bs[t].(nextBank := value)], true)
  }

  function Abandon(bs: seq<Bank>, fgr: int): (r: seq<Bank>)
    ensures |r| == |bs|
  {
    seq(|bs|, i requires 0 <= i < |bs| => if Owned(bs[i], fgr) then bs[i].(nextState := Abandoned) else bs[i])
  }

  function Commit(bs: seq<Bank>, fgr: int): (r: seq<Bank>)
    ensures |r| == |bs|
  {
    seq(|bs|, i requires 0 <= i < |bs| =>
      if Owned(bs[i], fgr) then bs[i].(nextBank := NEXT_CLEAR, nextState := Invalid) else bs[i])
  }

  /** A bank has something to pop. */
  predicate Drains(b: Bank) {
    b.state.Abandoned? && b.words != []
  }

  /** The first abandoned bank from i on that is not empty; -1 if there is none. */
  function PopTarget(bs: seq<Bank>, i: nat): (r: int)
    requires i <= |bs|
    ensures r == -1 || i <= r < |bs|
    ensures r >= 0 ==> bs[r].state.Abandoned? && bs[r].words != []
    ensures forall j :: i <= j < (if r < 0 then |bs| else r) ==> bs[j].state.Abandoned? ==> bs[j].words == []
    decreases |bs| - i
  {
    if i == |bs| then -1
    else if Drains(bs[i]) then i else PopTarget(bs, i + 1)
  }

  function Pop(bs: seq<Bank>): (r: (seq<Bank>, Option<int>))
    ensures |r.0| == |bs|
  {
    var t := PopTarget(bs, 0);
    if t < 0 then (bs, None)
    else (bs[t := bs[t].(nextBank := NEXT_POP)], Some(bs[t].words[|bs[t].words| - 1]))
  }

  /** The words of a bank once its staged value has taken effect. */
  function NextWords(b: Bank): seq<int> {
    if b.nextBank >= 0 then [b.nextBank] + b.words
    else if b.nextBank == NEXT_POP then (if b.words == [] then [] else b.words[..|b.words| - 1])
    else if b.nextBank == NEXT_CLEAR then [] else b.words
  }

  function EvalBank(b: Bank): Bank {
    var state := if b.state.Abandoned? && b.words == [] then Invalid else b.nextState;
    Bank(NextWords(b), b.nextFgr, state, NEXT_NOP, b.nextFgr, state)
  }

  function Eval(bs: seq<Bank>): (r: seq<Bank>)
    ensures |r| == |bs|
  {
    seq(|bs|, i requires 0 <= i < |bs| => EvalBank(bs[i]))
  }

  /** The requests of one cycle. */
  datatype Input = Input(abandon: Option<int>, commit: Option<int>, pop: bool, push: Option<(int, int)>)

  ghost predicate Sensible(i: Input) {
    i.push.Some? ==> i.push.value.1 >= 0
  }

  function AfterCommit(bs: seq<Bank>, i: Input): (r: seq<Bank>)
    ensures |r| == |bs|
  {
    var a := if i.abandon.Some? then Abandon(bs, i.abandon.value) else bs;
    if i.commit.Some? then Commit(a, i.commit.value) else a
  }

  function AfterPop(bs: seq<Bank>, i: Input): (r: (seq<Bank>, Option<int>))
    ensures |r.0| == |bs|
  {
    if i.pop then Pop(AfterCommit(bs, i)) else (AfterCommit(bs, i), None)
  }

  function AfterPush(bs: seq<Bank>, i: Input): (r: (seq<Bank>, bool))
    ensures |r.0| == |bs|
  {
    if i.push.Some? then Push(AfterPop(bs, i).0, i.push.value.0, i.push.value.1) else (AfterPop(bs, i).0, false)
  }

  function Cycle(bs: seq<Bank>, i: Input): (r: seq<Bank>)
    ensures |r| == |bs|
  {
    Eval(AfterPush(bs, i).0)
  }

  // ---- The invariant --------------------------------------------------------------------------------

  /** Nothing is staged; an invalid bank is empty; no bank exceeds its capacity. */
  ghost predicate BankOk(b: Bank) {
    && b.nextBank == NEXT_NOP && b.nextFgr == b.fgr && b.nextState == b.state
    && (b.state.Invalid? ==> b.words == [])
    && |b.words| <= CAPACITY
  }

  ghost predicate Ok(bs: seq<Bank>) {
    forall i :: 0 <= i < |bs| ==> BankOk(bs[i])
  }

  /** A push joins a bank that the same cycle commits. */
  ghost predicate Clash(bs: seq<Bank>, i: Input) {
    && i.push.Some? && i.commit.Some? && i.push.value.0 == i.commit.value
    && var t := PushTarget(bs, i.push.value.0, 0);
       t >= 0 && bs[t].state.Live?
  }

  lemma {:induction false} SameTargets(bs: seq<Bank>, bs': seq<Bank>, fgr: int, i: nat)
    requires |bs| == |bs'| && i <= |bs|
    requires forall k :: 0 <= k < |bs| ==>
               bs'[k].words == bs[k].words && bs'[k].fgr == bs[k].fgr && bs'[k].state == bs[k].state
    ensures PushTarget(bs', fgr, i) == PushTarget(bs, fgr, i) && PopTarget(bs', i) == PopTarget(bs, i)
    decreases |bs| - i
  {
    if i < |bs| { SameTargets(bs, bs', fgr, i + 1); }
  }

  /** What abandon and commit stage for a bank. */
  function Released(b: Bank, i: Input): Bank {
    var b := if i.abandon.Some? && Owned(b, i.abandon.value) then b.(nextState := Abandoned) else b;
    if i.commit.Some? && Owned(b, i.commit.value) then b.(nextBank := NEXT_CLEAR, nextState := Invalid) else b
  }

  /** What is staged for a bank by all calls of a cycle. */
  function Staged(b: Bank, i: Input, popped: bool, pushed: bool): Bank {
    var b := Released(b, i);
    var b := if popped then b.(nextBank := NEXT_POP) else b;
    if !pushed || i.push.None? then b
    else if b.state.Invalid? then b.(nextFgr := i.push.value.0, nextBank := i.push.value.1, nextState := Live)
    else b.(nextBank := i.push.value.1)
  }

  ghost function Pops(bs: seq<Bank>, i: Input): int {
    if i.pop then PopTarget(bs, 0) else -1
  }

  ghost function Pushes(bs: seq<Bank>, i: Input): int {
    if i.push.Some? then PushTarget(bs, i.push.value.0, 0) else -1
  }

  lemma StagedByPop(bs: seq<Bank>, i: Input)
    ensures forall k :: 0 <= k < |bs| ==> AfterPop(bs, i).0[k] == Staged(bs[k], i, k == Pops(bs, i), false)
    ensures var t := Pops(bs, i);
            AfterPop(bs, i).1 == if t >= 0 then Some(bs[t].words[|bs[t].words| - 1]) else None
  {
    SameTargets(bs, AfterCommit(bs, i), 0, 0);
  }

  lemma StagedCalls(bs: seq<Bank>, i: Input)
    ensures forall k :: 0 <= k < |bs| ==>
              AfterPush(bs, i).0[k] == Staged(bs[k], i, k == Pops(bs, i), k == Pushes(bs, i))
    ensures AfterPush(bs, i).1 <==> Pushes(bs, i) >= 0
  {
    StagedByPop(bs, i);
    SameTargets(bs, AfterPop(bs, i).0, if i.push.Some? then i.push.value.0 else 0, 0);
  }

  lemma BankKept(b: Bank, i: Input, popped: bool, pushed: bool)
    requires BankOk(b) && Sensible(i)
    requires popped ==> b.state.Abandoned? && b.words != []
    requires pushed ==> i.push.Some? && (b.state.Invalid? || (Owned(b, i.push.value.0) && |b.words| < CAPACITY))
    ensures BankOk(EvalBank(Staged(b, i, popped, pushed))) <==>
              !(pushed && b.state.Live? && i.commit.Some? && i.push.value.0 == i.commit.value)
  {
  }

  /** A cycle keeps the invariant exactly when its push does not join a bank it commits. */
  lemma InvariantKept(bs: seq<Bank>, i: Input)
    requires Ok(bs) && Sensible(i)
    ensures Ok(Cycle(bs, i)) <==> !Clash(bs, i)
  {
    StagedCalls(bs, i);
    forall k | 0 <= k < |bs|
      ensures BankOk(Cycle(bs, i)[k]) <==> !(Clash(bs, i) && k == Pushes(bs, i))
    {
      BankKept(bs[k], i, k == Pops(bs, i), k == Pushes(bs, i));
    }
    if Clash(bs, i) { assert !BankOk(Cycle(bs, i)[Pushes(bs, i)]); }
  }

  /** A clash is real: two cycles after reset, the group that pushed first pushes again and is committed, which
      leaves an invalid bank with both words. */
  lemma ClashReached(banks: nat, fgr: int, v: int, w: int)
    requires banks > 0 && v >= 0 && w >= 0
    ensures var first := Input(None, None, false, Some((fgr, v)));
            var second := Input(None, Some(fgr), false, Some((fgr, w)));
            var bs := RunAll(banks, [first]).bs;
            && Sensible(first) && Sensible(second) && Ok(bs) && Clash(bs, second)
            && !Ok(Cycle(bs, second))
            && Cycle(bs, second)[0].state.Invalid? && Cycle(bs, second)[0].words == [w, v]
  {
    FirstPush(banks, fgr, v);
    var bs := RunAll(banks, [Input(None, None, false, Some((fgr, v)))]).bs;
    var second := Input(None, Some(fgr), false, Some((fgr, w)));
    InvariantKept(bs, second);
    StagedCalls(bs, second);
  }

  /** The first push after reset goes to bank 0. */
  lemma FirstPush(banks: nat, fgr: int, v: int)
    requires banks > 0 && v >= 0
    ensures var bs := RunAll(banks, [Input(None, None, false, Some((fgr, v)))]).bs;
            |bs| == banks && Ok(bs) && bs[0] == Bank([v], fgr, Live, NEXT_NOP, fgr, Live)
  {
    var first, start := Input(None, None, false, Some((fgr, v))), Reset(banks).bs;
    assert [first][..0] == [];
    InvariantKept(start, first);
    StagedCalls(start, first);
  }

  // ---- What the calls of a cycle answer, and the states they lead to ---------------------------------

  /** A push is accepted if and only if some bank is invalid, or is live, of the group, and holds fewer than four
      words; a pop finds nothing if and only if every abandoned bank is empty. */
  lemma AnsweredExactly(bs: seq<Bank>, i: Input)
    ensures i.push.Some? ==>
              (AcceptedValue(bs, i) == Some(i.push.value.1) <==>
                 exists k :: 0 <= k < |bs| && (bs[k].state.Invalid? ||
                                               (bs[k].state.Live? && bs[k].fgr == i.push.value.0 && |bs[k].words| < 4)))
    ensures AcceptedValue(bs, i).None? || (i.push.Some? && AcceptedValue(bs, i) == Some(i.push.value.1))
    ensures i.pop ==>
              (PoppedValue(bs, i) == None <==>
                 forall k :: 0 <= k < |bs| && bs[k].state.Abandoned? ==> bs[k].words == [])
    ensures !i.pop ==> PoppedValue(bs, i) == None
  {
    StagedByPop(bs, i);
    StagedCalls(bs, i);
  }

  /** The state bank k takes in a cycle, for every state it may have been in: abandoned and drained, it becomes
      invalid; invalid, it becomes live with the first push of a group; live, it becomes invalid with the commit
      of its group and abandoned with the abandonment. Its group changes with that first push only. */
  lemma StatesExactly(bs: seq<Bank>, i: Input, k: nat)
    requires Ok(bs) && Sensible(i) && !Clash(bs, i) && k < |bs|
    ensures var b, b', pushed := bs[k], Cycle(bs, i)[k], i.push.Some? && k == PushTarget(bs, i.push.value.0, 0);
            && (b.state.Abandoned? ==> b'.state == if b.words == [] then Invalid else Abandoned)
            && (b.state.Invalid? ==> b'.state == if pushed then Live else Invalid)
            && (b.state.Live? ==>
                  b'.state == if i.commit == Some(b.fgr) then Invalid
                              else if i.abandon == Some(b.fgr) then Abandoned else Live)
            && b'.fgr == if b.state.Invalid? && pushed then i.push.value.0 else b.fgr
  {
    CycleBank(bs, i, k);
  }

  // ---- Conservation -----------------------------------------------------------------------------------

  /** The values in the first n banks. */
  function Banked(bs: seq<Bank>, n: nat): multiset<int>
    requires n <= |bs|
  {
    if n == 0 then multiset{} else Banked(bs, n - 1) + multiset(bs[n - 1].words)
  }

  /** The values a commit gives back. */
  function GivenBack(bs: seq<Bank>, i: Input, n: nat): multiset<int>
    requires n <= |bs|
  {
    if n == 0 then multiset{}
    else GivenBack(bs, i, n - 1) +
         (if i.commit.Some? && Owned(bs[n - 1], i.commit.value) then multiset(bs[n - 1].words) else multiset{})
  }

  function One(v: Option<int>): multiset<int> {
    if v.Some? then multiset{v.value} else multiset{}
  }

  function AcceptedValue(bs: seq<Bank>, i: Input): Option<int> {
    if AfterPush(bs, i).1 then Some(i.push.value.1) else None
  }

  function PoppedValue(bs: seq<Bank>, i: Input): Option<int> {
    AfterPop(bs, i).1
  }

  /** One bank over one cycle: nothing appears or vanishes. */
  lemma BankConserves(b: Bank, i: Input, popped: bool, pushed: bool)
    requires BankOk(b) && Sensible(i)
    requires popped ==> b.state.Abandoned? && b.words != []
    requires pushed ==> i.push.Some? && (b.state.Invalid? || Owned(b, i.push.value.0))
    requires !(pushed && b.state.Live? && i.commit.Some? && i.push.value.0 == i.commit.value)
    ensures multiset(EvalBank(Staged(b, i, popped, pushed)).words)
              + (if popped then multiset{b.words[|b.words| - 1]} else multiset{})
              + (if i.commit.Some? && Owned(b, i.commit.value) then multiset(b.words) else multiset{})
            == multiset(b.words) + (if pushed then multiset{i.push.value.1} else multiset{})
  {
    BankWords(b, i, popped, pushed);
    if popped { assert b.words == b.words[..|b.words| - 1] + [b.words[|b.words| - 1]]; }
  }

  /** What a bank holds after a cycle. */
  lemma BankWords(b: Bank, i: Input, popped: bool, pushed: bool)
    requires BankOk(b) && Sensible(i)
    requires popped ==> b.state.Abandoned? && b.words != []
    requires pushed ==> i.push.Some? && (b.state.Invalid? || Owned(b, i.push.value.0))
    requires !(pushed && b.state.Live? && i.commit.Some? && i.push.value.0 == i.commit.value)
    ensures EvalBank(Staged(b, i, popped, pushed)).words ==
              if popped then b.words[..|b.words| - 1]
              else if pushed then [i.push.value.1] + b.words
              else if i.commit.Some? && Owned(b, i.commit.value) then []
              else b.words
  {
  }

  lemma SumEquations(a: multiset<int>, p: multiset<int>, g: multiset<int>, b: multiset<int>, u: multiset<int>,
                     a': multiset<int>, p': multiset<int>, g': multiset<int>, b': multiset<int>, u': multiset<int>)
    requires a + p + g == b + u && a' + p' + g' == b' + u'
    ensures (a + a') + (p + p') + (g + g') == (b + b') + (u + u')
  {
    assert (a + a') + (p + p') + (g + g') == (a + p + g) + (a' + p' + g');
  }

  /** A value, if position k is below n. */
  function Upto(k: int, n: nat, v: Option<int>): multiset<int> {
    if 0 <= k < n then One(v) else multiset{}
  }

  /** What a cycle does to bank k, and which values the calls on it return. */
  lemma CycleBank(bs: seq<Bank>, i: Input, k: nat)
    requires k < |bs|
    ensures Cycle(bs, i)[k] == EvalBank(Staged(bs[k], i, k == Pops(bs, i), k == Pushes(bs, i)))
    ensures k == Pops(bs, i) ==> bs[k].state.Abandoned? && bs[k].words != []
                                 && PoppedValue(bs, i) == Some(bs[k].words[|bs[k].words| - 1])
    ensures k == Pushes(bs, i) ==> i.push.Some? && AcceptedValue(bs, i) == Some(i.push.value.1)
                                   && (bs[k].state.Invalid? || Owned(bs[k], i.push.value.0))
  {
    StagedByPop(bs, i);
    StagedCalls(bs, i);
  }

  lemma BankFlows(bs: seq<Bank>, i: Input, k: nat)
    requires Ok(bs) && Sensible(i) && !Clash(bs, i) && k < |bs|
    ensures multiset(Cycle(bs, i)[k].words)
              + (if k == Pops(bs, i) then One(PoppedValue(bs, i)) else multiset{})
              + (if i.commit.Some? && Owned(bs[k], i.commit.value) then multiset(bs[k].words) else multiset{})
            == multiset(bs[k].words) + (if k == Pushes(bs, i) then One(AcceptedValue(bs, i)) else multiset{})
  {
    CycleBank(bs, i, k);
    BankConserves(bs[k], i, k == Pops(bs, i), k == Pushes(bs, i));
  }

  lemma {:induction false} BanksConserve(bs: seq<Bank>, i: Input, n: nat)
    requires Ok(bs) && Sensible(i) && !Clash(bs, i) && n <= |bs|
    ensures Banked(Cycle(bs, i), n) + Upto(Pops(bs, i), n, PoppedValue(bs, i)) + GivenBack(bs, i, n)
            == Banked(bs, n) + Upto(Pushes(bs, i), n, AcceptedValue(bs, i))
  {
    if n > 0 {
      var k, pop, push := n - 1, Pops(bs, i), Pushes(bs, i);
      var out, put := PoppedValue(bs, i), AcceptedValue(bs, i);
      BanksConserve(bs, i, k);
      BankFlows(bs, i, k);
      SumEquations(Banked(Cycle(bs, i), k), Upto(pop, k, out), GivenBack(bs, i, k), Banked(bs, k), Upto(push, k, put),
                   multiset(Cycle(bs, i)[k].words), if k == pop then One(out) else multiset{},
                   if i.commit.Some? && Owned(bs[k], i.commit.value) then multiset(bs[k].words) else multiset{},
                   multiset(bs[k].words), if k == push then One(put) else multiset{});
      UptoNext(pop, k, out);
      UptoNext(push, k, put);
    }
  }

  lemma UptoNext(k: int, n: nat, v: Option<int>)
    ensures Upto(k, n + 1, v) == Upto(k, n, v) + if n == k then One(v) else multiset{}
  {
  }

  // ---- Runs -------------------------------------------------------------------------------------------

  /** A run: the banks, everything pushed, popped and given back so far, and for each bank what it has been
      pushed and what it has popped since it was last given back. */
  datatype Run = Run(bs: seq<Bank>, pushed: multiset<int>, popped: multiset<int>, given: multiset<int>,
                     ins: seq<seq<int>>, outs: seq<seq<int>>)

  function StepLog(log: seq<int>, cleared: bool, added: Option<int>): seq<int> {
    if cleared then [] else if added.Some? then log + [added.value] else log
  }

  ghost function Step(r: Run, i: Input): (r': Run)
    requires |r.ins| == |r.outs| == |r.bs|
    ensures |r'.ins| == |r'.outs| == |r'.bs|
  {
    var cleared := (k: int) => 0 <= k < |r.bs| && i.commit.Some? && Owned(r.bs[k], i.commit.value);
    Run(Cycle(r.bs, i),
        r.pushed + One(AcceptedValue(r.bs, i)), r.popped + One(PoppedValue(r.bs, i)),
        r.given + GivenBack(r.bs, i, |r.bs|),
        seq(|r.bs|, k requires 0 <= k < |r.bs| =>
          StepLog(r.ins[k], cleared(k), if k == Pushes(r.bs, i) then AcceptedValue(r.bs, i) else None)),
        seq(|r.bs|, k requires 0 <= k < |r.bs| =>
          StepLog(r.outs[k], cleared(k), if k == Pops(r.bs, i) then PoppedValue(r.bs, i) else None)))
  }

  ghost function Reset(banks: nat): (r: Run)
    ensures |r.ins| == |r.outs| == |r.bs|
  {
    Run(seq(banks, k => Bank([], -1, Invalid, NEXT_NOP, -1, Invalid)), multiset{}, multiset{}, multiset{},
        seq(banks, k => []), seq(banks, k => []))
  }

  ghost function RunAll(banks: nat, inputs: seq<Input>): (r: Run)
    ensures |r.ins| == |r.outs| == |r.bs|
  {
    if inputs == [] then Reset(banks) else Step(RunAll(banks, inputs[..|inputs| - 1]), inputs[|inputs| - 1])
  }

  /** Every cycle pushes register numbers only. */
  ghost predicate AllSensible(inputs: seq<Input>) {
    forall t :: 0 <= t < |inputs| ==> Sensible(inputs[t])
  }

  /** No cycle of the run pushes into a bank that it commits. */
  ghost predicate NeverClashes(banks: nat, inputs: seq<Input>) {
    inputs == [] ||
    (var front := inputs[..|inputs| - 1];
     NeverClashes(banks, front) && !Clash(RunAll(banks, front).bs, inputs[|inputs| - 1]))
  }

  /** The banks are in order after every cycle of the run. */
  ghost predicate AlwaysOk(banks: nat, inputs: seq<Input>) {
    Ok(RunAll(banks, inputs).bs) && (inputs == [] || AlwaysOk(banks, inputs[..|inputs| - 1]))
  }

  function Reverse(s: seq<int>): (r: seq<int>) {
    seq(|s|, i requires 0 <= i < |s| => s[|s| - 1 - i])
  }

  /** What a bank was pushed is what it has popped, followed by what it holds, oldest first. */
  ghost predicate InOrder(b: Bank, ins: seq<int>, outs: seq<int>) {
    ins == outs + Reverse(b.words)
  }

  lemma BankInOrder(b: Bank, i: Input, popped: bool, pushed: bool, ins: seq<int>, outs: seq<int>)
    requires BankOk(b) && Sensible(i) && InOrder(b, ins, outs)
    requires popped ==> b.state.Abandoned? && b.words != []
    requires pushed ==> i.push.Some? && (b.state.Invalid? || Owned(b, i.push.value.0))
    requires !(pushed && b.state.Live? && i.commit.Some? && i.push.value.0 == i.commit.value)
    ensures var cleared := i.commit.Some? && Owned(b, i.commit.value);
            InOrder(EvalBank(Staged(b, i, popped, pushed)),
                    StepLog(ins, cleared, if pushed then Some(i.push.value.1) else None),
                    StepLog(outs, cleared, if popped then Some(b.words[|b.words| - 1]) else None))
  {
    BankWords(b, i, popped, pushed);
    if pushed {
      assert Reverse([i.push.value.1] + b.words) == Reverse(b.words) + [i.push.value.1];
    } else if popped {
      var last := |b.words| - 1;
      assert Reverse(b.words) == [b.words[last]] + Reverse(b.words[..last]);
    }
  }

  ghost predicate RunOk(r: Run, banks: nat) {
    && |r.bs| == |r.ins| == |r.outs| == banks && Ok(r.bs)
    && r.pushed == Banked(r.bs, banks) + r.popped + r.given
    && forall k :: 0 <= k < banks ==> InOrder(r.bs[k], r.ins[k], r.outs[k])
  }

  lemma StepConserves(r: Run, banks: nat, i: Input)
    requires |r.bs| == |r.ins| == |r.outs| == banks && Ok(r.bs) && Sensible(i) && !Clash(r.bs, i)
    requires r.pushed == Banked(r.bs, banks) + r.popped + r.given
    ensures var r' := Step(r, i); r'.pushed == Banked(r'.bs, banks) + r'.popped + r'.given
  {
    var bs := r.bs;
    BanksConserve(bs, i, banks);
    StagedByPop(bs, i);
    StagedCalls(bs, i);
    var now, back := Banked(Cycle(bs, i), banks), GivenBack(bs, i, banks);
    var popped, pushed := One(PoppedValue(bs, i)), One(AcceptedValue(bs, i));
    assert now + popped + back == Banked(bs, banks) + pushed;
    assert r.pushed + pushed == (Banked(bs, banks) + pushed) + r.popped + r.given;
    assert now + (r.popped + popped) + (r.given + back) == (now + popped + back) + r.popped + r.given;
  }

  lemma StepLogs(r: Run, i: Input, k: nat)
    requires |r.ins| == |r.outs| == |r.bs| && k < |r.bs|
    ensures var cleared := i.commit.Some? && Owned(r.bs[k], i.commit.value);
            && Step(r, i).bs[k] == Cycle(r.bs, i)[k]
            && Step(r, i).ins[k] ==
                 StepLog(r.ins[k], cleared, if k == Pushes(r.bs, i) then AcceptedValue(r.bs, i) else None)
            && Step(r, i).outs[k] ==
                 StepLog(r.outs[k], cleared, if k == Pops(r.bs, i) then PoppedValue(r.bs, i) else None)
  {
  }

  lemma StepInOrder(r: Run, i: Input, k: nat)
    requires |r.ins| == |r.outs| == |r.bs| && k < |r.bs| && Sensible(i) && !Clash(r.bs, i)
    requires BankOk(r.bs[k]) && InOrder(r.bs[k], r.ins[k], r.outs[k])
    ensures InOrder(Step(r, i).bs[k], Step(r, i).ins[k], Step(r, i).outs[k])
  {
    CycleBank(r.bs, i, k);
    StepLogs(r, i, k);
    BankInOrder(r.bs[k], i, k == Pops(r.bs, i), k == Pushes(r.bs, i), r.ins[k], r.outs[k]);
  }

  lemma StepOk(r: Run, banks: nat, i: Input)
    requires RunOk(r, banks) && Sensible(i) && !Clash(r.bs, i)
    ensures RunOk(Step(r, i), banks)
  {
    InvariantKept(r.bs, i);
    StepConserves(r, banks, i);
    forall k | 0 <= k < banks
      ensures InOrder(Step(r, i).bs[k], Step(r, i).ins[k], Step(r, i).outs[k])
    {
      StepInOrder(r, i, k);
    }
  }

  lemma {:induction false} ResetOk(banks: nat, n: nat)
    requires n <= banks
    ensures Banked(Reset(banks).bs, n) == multiset{}
  {
    if n > 0 { ResetOk(banks, n - 1); }
  }

  lemma {:induction false} RunKeepsOk(banks: nat, inputs: seq<Input>)
    requires AllSensible(inputs) && NeverClashes(banks, inputs)
    ensures RunOk(RunAll(banks, inputs), banks)
  {
    if inputs == [] {
      ResetOk(banks, banks);
    } else {
      var front := inputs[..|inputs| - 1];
      RunKeepsOk(banks, front);
      StepOk(RunAll(banks, front), banks, inputs[|inputs| - 1]);
    }
  }

  /** Over every run without a clash: what was pushed is what is banked, popped or given back; invalid banks
      are empty; no bank holds more than its capacity; and every bank pops in push order. */
  lemma Conservation(banks: nat, inputs: seq<Input>, r: Run)
    requires AllSensible(inputs) && NeverClashes(banks, inputs) && r == RunAll(banks, inputs)
    ensures |r.bs| == |r.ins| == |r.outs| == banks
    ensures r.pushed == Banked(r.bs, banks) + r.popped + r.given
    ensures forall k :: 0 <= k < banks && r.bs[k].state.Invalid? ==> r.bs[k].words == []
    ensures forall k :: 0 <= k < banks ==> |r.bs[k].words| <= 4
    ensures forall k :: 0 <= k < banks ==> r.ins[k] == r.outs[k] + Reverse(r.bs[k].words)
  {
    RunKeepsOk(banks, inputs);
  }

  /** A run keeps every bank in order throughout if and only if no cycle of it clashes. */
  lemma {:induction false} KeptExactly(banks: nat, inputs: seq<Input>)
    requires AllSensible(inputs)
    ensures AlwaysOk(banks, inputs) <==> NeverClashes(banks, inputs)
  {
    if inputs != [] {
      var front := inputs[..|inputs| - 1];
      KeptExactly(banks, front);
      if AlwaysOk(banks, front) { InvariantKept(RunAll(banks, front).bs, inputs[|inputs| - 1]); }
    }
  }

  /** The bench's discipline, never to commit the group it pushes for in the same cycle, excludes clashes. */
  lemma {:induction false} DistinctGroupsNeverClash(banks: nat, inputs: seq<Input>)
    requires forall t :: 0 <= t < |inputs| && inputs[t].push.Some? && inputs[t].commit.Some? ==>
               inputs[t].push.value.0 != inputs[t].commit.value
    ensures NeverClashes(banks, inputs)
  {
    if inputs != [] { DistinctGroupsNeverClash(banks, inputs[..|inputs| - 1]); }
  }
}
