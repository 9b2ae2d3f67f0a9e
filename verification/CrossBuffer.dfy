/** Two-port and four-port cross buffers: a skid buffer on every port, and an arbiter that merges the
    ports into one stream. */
module CrossBuffers {
  import opened BypassBuffers

  /** One word of the merged stream and the port it was granted to. */
  datatype Grant<T> = Grant(port: nat, data: T)

  /** The words of the merged stream that came from a port. */
  function FromPort<T>(out: seq<Grant<T>>, p: nat): seq<T> {
    if out == [] then []
    else FromPort(out[..|out| - 1], p) + (if out[|out| - 1].port == p then [out[|out| - 1].data] else [])
  }

  lemma FromPortAppend<T>(out: seq<Grant<T>>, g: Grant<T>, p: nat)
    ensures FromPort(out + [g], p) == FromPort(out, p) + (if g.port == p then [g.data] else [])
  {
    assert (out + [g])[..|out|] == out;
  }

  // ---- Two ports ------------------------------------------------------------------------------------

  datatype Cross2<T> = Cross2(b0: Skid<T>, b1: Skid<T>, rrsel: bool)

  datatype Pins2<T> = Pins2(i0: Offer<T>, i1: Offer<T>, nextReady: bool)

  predicate Compete<T>(s: Cross2<T>, i: Pins2<T>) {
    OutValid(s.b0, i.i0) && OutValid(s.b1, i.i1)
  }

  predicate Ready0<T>(s: Cross2<T>, i: Pins2<T>) {
    i.nextReady && if Compete(s, i) then !s.rrsel else OutValid(s.b0, i.i0)
  }

  predicate Ready1<T>(s: Cross2<T>, i: Pins2<T>) {
    i.nextReady && if Compete(s, i) then s.rrsel else OutValid(s.b1, i.i1)
  }

  predicate NextValid2<T>(s: Cross2<T>, i: Pins2<T>) {
    OutValid(s.b0, i.i0) || OutValid(s.b1, i.i1)
  }

  function NextData2<T>(s: Cross2<T>, i: Pins2<T>): T {
    if Ready0(s, i) then OutData(s.b0, i.i0) else OutData(s.b1, i.i1)
  }

  function Edge2<T>(s: Cross2<T>, i: Pins2<T>): Cross2<T> {
    Cross2(Edge(s.b0, i.i0, Ready0(s, i)), Edge(s.b1, i.i1, Ready1(s, i)),
           if i.nextReady && Compete(s, i) then !s.rrsel else s.rrsel)
  }

  /** A handshake grants exactly one port, which is valid and whose word is the output; without a
      handshake nothing is granted. */
  lemma GrantUnique2<T>(s: Cross2<T>, i: Pins2<T>)
    ensures if NextValid2(s, i) && i.nextReady
            then Ready0(s, i) != Ready1(s, i)
                 && (Ready0(s, i) ==> OutValid(s.b0, i.i0) && NextData2(s, i) == OutData(s.b0, i.i0))
                 && (Ready1(s, i) ==> OutValid(s.b1, i.i1) && NextData2(s, i) == OutData(s.b1, i.i1))
            else !Ready0(s, i) && !Ready1(s, i)
  {
  }

  /** A run: the registers, the merged stream, what each port has accepted, and for each port how many
      words of the other were granted since it last was served or had nothing to offer. */
  datatype Run2<T> = Run2(s: Cross2<T>, out: seq<Grant<T>>, in0: seq<T>, in1: seq<T>, passed0: nat, passed1: nat)

  function Overtaken(valid: bool, granted: bool, other: bool, passed: nat): nat {
    if !valid || granted then 0 else if other then passed + 1 else passed
  }

  function Step2<T>(r: Run2<T>, i: Pins2<T>): Run2<T> {
    var g0, g1 := Ready0(r.s, i), Ready1(r.s, i);
    Run2(Edge2(r.s, i),
         if NextValid2(r.s, i) && i.nextReady then r.out + [Grant(if g0 then 0 else 1, NextData2(r.s, i))] else r.out,
         r.in0 + Accepted(r.s.b0, i.i0), r.in1 + Accepted(r.s.b1, i.i1),
         Overtaken(OutValid(r.s.b0, i.i0), g0, g1, r.passed0),
         Overtaken(OutValid(r.s.b1, i.i1), g1, g0, r.passed1))
  }

  function RunAll2<T>(zero: T, pins: seq<Pins2<T>>): Run2<T> {
    if pins == [] then Run2(Cross2(Skid(zero, false), Skid(zero, false), false), [], [], [], 0, 0)
    else Step2(RunAll2(zero, pins[..|pins| - 1]), pins[|pins| - 1])
  }

  ghost predicate Merges2<T>(r: Run2<T>) {
    && r.in0 == FromPort(r.out, 0) + Held(r.s.b0)
    && r.in1 == FromPort(r.out, 1) + Held(r.s.b1)
  }

  /** A port that was overtaken is held in its buffer and is next in turn. */
  ghost predicate Fair2<T>(r: Run2<T>) {
    && r.passed0 <= 1 && (r.passed0 == 1 ==> r.s.b0.held && !r.s.rrsel)
    && r.passed1 <= 1 && (r.passed1 == 1 ==> r.s.b1.held && r.s.rrsel)
  }

  /** One port over one cycle: accepted words still equal delivered ones plus the buffered one. */
  lemma PortStream<T>(accepted: seq<T>, delivered: seq<T>, b: Skid<T>, i: Offer<T>, nextReady: bool)
    requires accepted == delivered + Held(b)
    ensures accepted + Accepted(b, i) == (delivered + Delivered(b, i, nextReady)) + Held(Edge(b, i, nextReady))
  {
    EdgeKeepsStream(b, i, nextReady);
    assert (delivered + Held(b)) + Accepted(b, i) == delivered + (Held(b) + Accepted(b, i));
  }

  lemma StepMerges2<T>(r: Run2<T>, i: Pins2<T>)
    requires Merges2(r)
    ensures Merges2(Step2(r, i))
  {
    GrantUnique2(r.s, i);
    PortStream(r.in0, FromPort(r.out, 0), r.s.b0, i.i0, Ready0(r.s, i));
    PortStream(r.in1, FromPort(r.out, 1), r.s.b1, i.i1, Ready1(r.s, i));
    var g := Grant(if Ready0(r.s, i) then 0 else 1, NextData2(r.s, i));
    FromPortAppend(r.out, g, 0);
    FromPortAppend(r.out, g, 1);
  }

  lemma StepFair2<T>(r: Run2<T>, i: Pins2<T>)
    requires Fair2(r)
    ensures Fair2(Step2(r, i))
  {
  }

  /** On every trace each port's words reach the output in order and exactly once, but for the one still
      buffered, and a waiting port is overtaken at most once. */
  lemma {:induction false} CrossBuffer2<T>(zero: T, pins: seq<Pins2<T>>)
    ensures Merges2(RunAll2(zero, pins)) && Fair2(RunAll2(zero, pins))
  {
    if pins != [] {
      CrossBuffer2(zero, pins[..|pins| - 1]);
      StepMerges2(RunAll2(zero, pins[..|pins| - 1]), pins[|pins| - 1]);
      StepFair2(RunAll2(zero, pins[..|pins| - 1]), pins[|pins| - 1]);
    }
  }

  /** The number of cycles in which both ports competed for a consumer that was ready. */
  function Contested<T>(zero: T, pins: seq<Pins2<T>>): nat {
    if pins == [] then 0
    else
      var front, i := pins[..|pins| - 1], pins[|pins| - 1];
      var s := RunAll2(zero, front).s;
      Contested(zero, front) +
      (if i.nextReady && OutValid(s.b0, i.i0) && OutValid(s.b1, i.i1) then 1 else 0)
  }

  /** The selector changes with every contested handshake, and with no other. */
  lemma {:induction false} SelectorCountsContests<T>(zero: T, pins: seq<Pins2<T>>)
    ensures RunAll2(zero, pins).s.rrsel <==> Contested(zero, pins) % 2 == 1
  {
    if pins != [] { SelectorCountsContests(zero, pins[..|pins| - 1]); }
  }

  /** In every cycle of every trace: a port alone is served, and contested handshakes go to the ports in turn,
      port 0 first. */
  lemma ServedExactly2<T>(zero: T, pins: seq<Pins2<T>>, i: Pins2<T>)
    ensures var s := RunAll2(zero, pins).s;
            && (Ready0(s, i) <==>
                  i.nextReady && OutValid(s.b0, i.i0) && (OutValid(s.b1, i.i1) ==> Contested(zero, pins) % 2 == 0))
            && (Ready1(s, i) <==>
                  i.nextReady && OutValid(s.b1, i.i1) && (OutValid(s.b0, i.i0) ==> Contested(zero, pins) % 2 == 1))
            && (NextValid2(s, i) <==> OutValid(s.b0, i.i0) || OutValid(s.b1, i.i1))
  {
    SelectorCountsContests(zero, pins);
  }
}
