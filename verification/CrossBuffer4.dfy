/** The four-port cross buffer: two pairs of ports, a bit that says which pair is next, and a bit per pair
    that says which of its ports is next. */
module CrossBuffers4 {
  import opened BypassBuffers
  import opened CrossBuffers

  /** A word as its bits. */
  type Word = seq<bool>

  datatype Cross4 = Cross4(b: seq<Skid<Word>>, r1: bool, r2: seq<bool>)

  datatype Pins4 = Pins4(offers: seq<Offer<Word>>, nextReady: bool)

  ghost predicate Fits(s: Cross4, width: nat) {
    |s.b| == 4 && |s.r2| == 2 && forall p :: 0 <= p < 4 ==> |s.b[p].word| == width
  }

  ghost predicate PinsFit(i: Pins4, width: nat) {
    |i.offers| == 4 && forall p :: 0 <= p < 4 ==> |i.offers[p].data| == width
  }

  ghost predicate AllFit(pins: seq<Pins4>, width: nat) {
    forall t :: 0 <= t < |pins| ==> PinsFit(pins[t], width)
  }

  predicate Valid(s: Cross4, i: Pins4, p: nat)
    requires |s.b| == |i.offers| == 4 && p < 4
  {
    OutValid(s.b[p], i.offers[p])
  }

  predicate PairValid(s: Cross4, i: Pins4, pair: nat)
    requires |s.b| == |i.offers| == 4 && pair < 2
  {
    Valid(s, i, 2 * pair) || Valid(s, i, 2 * pair + 1)
  }

  /** Only one port of the pair is valid. */
  predicate PairExclusive(s: Cross4, i: Pins4, pair: nat)
    requires |s.b| == |i.offers| == 4 && pair < 2
  {
    Valid(s, i, 2 * pair) != Valid(s, i, 2 * pair + 1)
  }

  /** Only one pair is valid. */
  predicate GroupExclusive(s: Cross4, i: Pins4)
    requires |s.b| == |i.offers| == 4
  {
    PairValid(s, i, 0) != PairValid(s, i, 1)
  }

  /** The grant of a port. Both pairs consult the first pair's port bit. */
  predicate Pick(s: Cross4, i: Pins4, p: nat)
    requires |s.b| == |i.offers| == 4 && |s.r2| == 2 && p < 4
  {
    var pair := p / 2;
    && ((if pair == 0 then !s.r1 else s.r1) || GroupExclusive(s, i))
    && ((if p % 2 == 0 then !s.r2[0] else s.r2[0]) || PairExclusive(s, i, pair))
    && Valid(s, i, p) && i.nextReady
  }

  predicate PairPicked(s: Cross4, i: Pins4, pair: nat)
    requires |s.b| == |i.offers| == 4 && |s.r2| == 2 && pair < 2
  {
    Pick(s, i, 2 * pair) || Pick(s, i, 2 * pair + 1)
  }

  predicate NextValid(s: Cross4, i: Pins4)
    requires |s.b| == |i.offers| == 4 && |s.r2| == 2
  {
    PairPicked(s, i, 0) || PairPicked(s, i, 1)
  }

  /** The output word: the ports' words, each masked by its grant, or-ed together. */
  function NextData(s: Cross4, i: Pins4, width: nat): (w: Word)
    requires Fits(s, width) && PinsFit(i, width)
    ensures |w| == width
  {
    seq(width, k requires 0 <= k < width =>
      || (Pick(s, i, 0) && OutData(s.b[0], i.offers[0])[k])
      || (Pick(s, i, 1) && OutData(s.b[1], i.offers[1])[k])
      || (Pick(s, i, 2) && OutData(s.b[2], i.offers[2])[k])
      || (Pick(s, i, 3) && OutData(s.b[3], i.offers[3])[k]))
  }

  function Edge4(s: Cross4, i: Pins4): (r: Cross4)
    requires |s.b| == |i.offers| == 4 && |s.r2| == 2
    ensures |r.b| == 4 && |r.r2| == 2
    ensures forall p :: 0 <= p < 4 ==> r.b[p] == Edge(s.b[p], i.offers[p], Pick(s, i, p))
  {
    Cross4([Edge(s.b[0], i.offers[0], Pick(s, i, 0)), Edge(s.b[1], i.offers[1], Pick(s, i, 1)),
            Edge(s.b[2], i.offers[2], Pick(s, i, 2)), Edge(s.b[3], i.offers[3], Pick(s, i, 3))],
           if NextValid(s, i) then PairPicked(s, i, 0) else s.r1,
           [if PairPicked(s, i, 0) then Pick(s, i, 0) else s.r2[0],
            if PairPicked(s, i, 1) then Pick(s, i, 2) else s.r2[1]])
  }

  /** The granted port; 4 when there is none. */
  function Granted(s: Cross4, i: Pins4): (p: nat)
    requires |s.b| == |i.offers| == 4 && |s.r2| == 2
  {
    if Pick(s, i, 0) then 0 else if Pick(s, i, 1) then 1 else if Pick(s, i, 2) then 2
    else if Pick(s, i, 3) then 3 else 4
  }

  /** With a valid port and a ready consumer exactly one port is granted, it is valid and its word is the
      output; otherwise none is granted. */
  lemma GrantUnique4(s: Cross4, i: Pins4, width: nat)
    requires Fits(s, width) && PinsFit(i, width)
    ensures NextValid(s, i) <==> i.nextReady && (PairValid(s, i, 0) || PairValid(s, i, 1))
    ensures NextValid(s, i) <==> Granted(s, i) < 4
    ensures forall p :: 0 <= p < 4 ==> (Pick(s, i, p) <==> p == Granted(s, i))
    ensures NextValid(s, i) ==>
              var g := Granted(s, i);
              Valid(s, i, g) && NextData(s, i, width) == OutData(s.b[g], i.offers[g])
  {
    OneGrant(s, i);
    if NextValid(s, i) {
      var g := Granted(s, i);
      assert NextData(s, i, width) == OutData(s.b[g], i.offers[g]);
    }
  }

  lemma OneGrant(s: Cross4, i: Pins4)
    requires |s.b| == |i.offers| == 4 && |s.r2| == 2
    ensures NextValid(s, i) <==> i.nextReady && (PairValid(s, i, 0) || PairValid(s, i, 1))
    ensures NextValid(s, i) <==> Granted(s, i) < 4
    ensures forall p :: 0 <= p < 4 ==> (Pick(s, i, p) <==> p == Granted(s, i))
  {
    forall p | 0 <= p < 4 ensures Pick(s, i, p) <==> p == Granted(s, i) {
      assert p == 0 || p == 1 || p == 2 || p == 3;
    }
  }

  // ---- Runs -------------------------------------------------------------------------------------------

  /** A run: the registers, the merged stream, what each port has accepted, for each pair the grants of the
      other pair since it was last served or had nothing to offer, and for each port of the first pair the
      grants of any other port since then. */
  datatype Run4 = Run4(s: Cross4, out: seq<Grant<Word>>, accepted: seq<seq<Word>>,
                       passed: seq<nat>, waited: seq<nat>)

  function Step4(r: Run4, i: Pins4, width: nat): (r': Run4)
    requires Sized(r, width) && PinsFit(i, width)
    ensures |r'.s.b| == |r'.accepted| == 4 && |r'.s.r2| == |r'.passed| == |r'.waited| == 2
    ensures forall p :: 0 <= p < 4 ==> |r'.s.b[p].word| == width
    ensures forall p :: 0 <= p < 4 ==> r'.accepted[p] == r.accepted[p] + Accepted(r.s.b[p], i.offers[p])
    ensures forall p :: 0 <= p < 2 ==>
              r'.passed[p] ==
                Overtaken(PairValid(r.s, i, p), PairPicked(r.s, i, p), PairPicked(r.s, i, 1 - p), r.passed[p])
    ensures forall p :: 0 <= p < 2 ==>
              r'.waited[p] == Overtaken(Valid(r.s, i, p), Pick(r.s, i, p), NextValid(r.s, i), r.waited[p])
  {
    Run4(Edge4(r.s, i),
         if NextValid(r.s, i) then r.out + [Grant(Granted(r.s, i), NextData(r.s, i, width))] else r.out,
         seq(4, p requires 0 <= p < 4 => r.accepted[p] + Accepted(r.s.b[p], i.offers[p])),
         seq(2, p requires 0 <= p < 2 =>
           Overtaken(PairValid(r.s, i, p), PairPicked(r.s, i, p), PairPicked(r.s, i, 1 - p), r.passed[p])),
         seq(2, p requires 0 <= p < 2 =>
           Overtaken(Valid(r.s, i, p), Pick(r.s, i, p), NextValid(r.s, i), r.waited[p])))
  }

  function Reset4(width: nat): (r: Run4)
    ensures |r.s.b| == |r.accepted| == 4 && |r.s.r2| == |r.passed| == |r.waited| == 2
    ensures forall p :: 0 <= p < 4 ==> |r.s.b[p].word| == width
  {
    var empty := Skid(seq(width, k => false), false);
    Run4(Cross4([empty, empty, empty, empty], false, [false, false]), [], [[], [], [], []], [0, 0], [0, 0])
  }

  function RunAll4(pins: seq<Pins4>, width: nat): (r: Run4)
    requires AllFit(pins, width)
    ensures |r.s.b| == |r.accepted| == 4 && |r.s.r2| == |r.passed| == |r.waited| == 2
    ensures forall p :: 0 <= p < 4 ==> |r.s.b[p].word| == width
  {
    if pins == [] then Reset4(width)
    else
      assert PinsFit(pins[|pins| - 1], width);
      Step4(RunAll4(pins[..|pins| - 1], width), pins[|pins| - 1], width)
  }

  ghost predicate Sized(r: Run4, width: nat) {
    && |r.s.b| == |r.accepted| == 4 && |r.s.r2| == |r.passed| == |r.waited| == 2
    && forall p :: 0 <= p < 4 ==> |r.s.b[p].word| == width
  }

  ghost predicate Merges4(r: Run4)
    requires |r.s.b| == |r.accepted| == 4
  {
    forall p :: 0 <= p < 4 ==> r.accepted[p] == FromPort(r.out, p) + Held(r.s.b[p])
  }

  /** A pair that was overtaken has a buffered word and is next in turn. */
  ghost predicate PairsFair(r: Run4)
    requires |r.s.b| == 4 && |r.passed| == 2
  {
    && r.passed[0] <= 1 && (r.passed[0] == 1 ==> (r.s.b[0].held || r.s.b[1].held) && !r.s.r1)
    && r.passed[1] <= 1 && (r.passed[1] == 1 ==> (r.s.b[2].held || r.s.b[3].held) && r.s.r1)
  }

  /** How many more grants to others the two bits can still cost port p of the first pair. */
  function Behind(s: Cross4, p: nat): nat
    requires |s.r2| == 2 && p < 2
  {
    (if s.r1 then 1 else 0) + (if s.r2[0] == (p == 0) then 2 else 0)
  }

  ghost predicate FirstPairFair(r: Run4)
    requires |r.s.b| == 4 && |r.s.r2| == |r.waited| == 2
  {
    forall p :: 0 <= p < 2 ==>
      r.waited[p] + Behind(r.s, p) <= 3 && (r.waited[p] > 0 ==> r.s.b[p].held)
  }

  lemma StepMerges4(r: Run4, i: Pins4, width: nat)
    requires Sized(r, width) && PinsFit(i, width) && Merges4(r)
    ensures Merges4(Step4(r, i, width))
  {
    GrantUnique4(r.s, i, width);
    var g := Grant(Granted(r.s, i), NextData(r.s, i, width));
    forall p | 0 <= p < 4
      ensures var r' := Step4(r, i, width); r'.accepted[p] == FromPort(r'.out, p) + Held(r'.s.b[p])
    {
      PortStream(r.accepted[p], FromPort(r.out, p), r.s.b[p], i.offers[p], Pick(r.s, i, p));
      FromPortAppend(r.out, g, p);
    }
  }

  lemma StepPairsFair(r: Run4, i: Pins4, width: nat)
    requires Sized(r, width) && PinsFit(i, width) && PairsFair(r)
    ensures PairsFair(Step4(r, i, width))
  {
    OneGrant(r.s, i);
  }

  lemma StepFirstPairFair(r: Run4, i: Pins4, width: nat)
    requires Sized(r, width) && PinsFit(i, width) && FirstPairFair(r)
    ensures FirstPairFair(Step4(r, i, width))
  {
    OneGrant(r.s, i);
    forall p | 0 <= p < 2
      ensures var r' := Step4(r, i, width);
              r'.waited[p] + Behind(r'.s, p) <= 3 && (r'.waited[p] > 0 ==> r'.s.b[p].held)
    {
      assert p == 0 || p == 1;
    }
  }

  /** On every trace each port's words reach the output in order and exactly once, but for the one still
      buffered; a waiting pair is overtaken at most once by the other pair; and a waiting port of the first
      pair is overtaken at most three times. */
  lemma {:induction false} CrossBuffer4(pins: seq<Pins4>, width: nat)
    requires AllFit(pins, width)
    ensures var r := RunAll4(pins, width);
            && Merges4(r)
            && r.passed[0] <= 1 && r.passed[1] <= 1 && PairsFair(r)
            && r.waited[0] <= 3 && r.waited[1] <= 3 && FirstPairFair(r)
  {
    if pins != [] {
      var front, i := pins[..|pins| - 1], pins[|pins| - 1];
      CrossBuffer4(front, width);
      StepMerges4(RunAll4(front, width), i, width);
      StepPairsFair(RunAll4(front, width), i, width);
      StepFirstPairFair(RunAll4(front, width), i, width);
    }
  }

  // ---- Which port of a pair is served -------------------------------------------------------------

  /** Of the words delivered from ports 0 and 1, the last one came from port 0. */
  function LastFirst0(out: seq<Grant<Word>>): bool {
    if out == [] then false
    else
      var last := out[|out| - 1];
      if last.port < 2 then last.port == 0 else LastFirst0(out[..|out| - 1])
  }

  /** The other port of a pair. */
  function Partner(p: nat): (q: nat)
    ensures p < 4 ==> q < 4 && q != p && q / 2 == p / 2
  {
    if p % 2 == 0 then p + 1 else p - 1
  }

  /** The output so far favours port p of either pair over its partner. */
  predicate Favoured(out: seq<Grant<Word>>, p: nat) {
    LastFirst0(out) == (p % 2 == 1)
  }

  lemma LastFirst0Append(out: seq<Grant<Word>>, g: Grant<Word>)
    ensures LastFirst0(out + [g]) == if g.port < 2 then g.port == 0 else LastFirst0(out)
  {
    assert (out + [g])[..|out|] == out;
  }

  /** The last word delivered came from the first pair. */
  predicate LastPair0(out: seq<Grant<Word>>) {
    out != [] && out[|out| - 1].port < 2
  }

  /** The bits remember the output: which pair was served last, and, in the first pair's bit, which both pairs
      consult, which port of the first pair was. */
  lemma {:induction false} BitsRememberOutput(pins: seq<Pins4>, width: nat)
    requires AllFit(pins, width)
    ensures var r := RunAll4(pins, width); r.s.r2[0] == LastFirst0(r.out) && r.s.r1 == LastPair0(r.out)
  {
    if pins != [] {
      var front, i := pins[..|pins| - 1], pins[|pins| - 1];
      BitsRememberOutput(front, width);
      var r := RunAll4(front, width);
      OneGrant(r.s, i);
      LastFirst0Append(r.out, Grant(Granted(r.s, i), NextData(r.s, i, width)));
    }
  }

  /** In every cycle of every trace, a port is served if and only if the consumer is ready, it has a word on
      offer, the other pair was served last or has none, and it is favoured over its partner or its partner
      has none. For both pairs that favour depends on the first pair's words. */
  lemma ServedExactly(pins: seq<Pins4>, i: Pins4, width: nat, p: nat)
    requires AllFit(pins, width) && PinsFit(i, width) && p < 4
    ensures var r := RunAll4(pins, width);
            Pick(r.s, i, p) <==>
              && i.nextReady && Valid(r.s, i, p)
              && (LastPair0(r.out) == (p / 2 == 1) || !PairValid(r.s, i, 1 - p / 2))
              && (Favoured(r.out, p) || !Valid(r.s, i, Partner(p)))
  {
    BitsRememberOutput(pins, width);
    PickByBits(RunAll4(pins, width).s, i, p);
  }

  lemma PickByBits(s: Cross4, i: Pins4, p: nat)
    requires |s.b| == |i.offers| == 4 && |s.r2| == 2 && p < 4
    ensures Pick(s, i, p) <==>
              && i.nextReady && Valid(s, i, p)
              && (s.r1 == (p / 2 == 1) || !PairValid(s, i, 1 - p / 2))
              && (s.r2[0] == (p % 2 == 1) || !Valid(s, i, Partner(p)))
  {
    assert p == 0 || p == 1 || p == 2 || p == 3;
  }

  // ---- How long a port waits --------------------------------------------------------------------------

  /** The state at the start of cycle t of a trace. */
  function Before(pins: seq<Pins4>, width: nat, t: nat): (r: Run4)
    requires AllFit(pins, width) && t <= |pins|
    ensures |r.s.b| == |r.accepted| == 4 && |r.s.r2| == |r.passed| == |r.waited| == 2
    ensures forall p :: 0 <= p < 4 ==> |r.s.b[p].word| == width
  {
    RunAll4(pins[..t], width)
  }

  ghost predicate Offers(pins: seq<Pins4>, width: nat, t: nat, p: nat)
    requires AllFit(pins, width) && t < |pins| && p < 4
  {
    assert PinsFit(pins[t], width);
    Valid(Before(pins, width, t).s, pins[t], p)
  }

  ghost predicate Serves(pins: seq<Pins4>, width: nat, t: nat, p: nat)
    requires AllFit(pins, width) && t < |pins| && p < 4
  {
    assert PinsFit(pins[t], width);
    Pick(Before(pins, width, t).s, pins[t], p)
  }

  /** In cycle t the consumer is ready, the other pair was served last or has nothing on offer, and port p is
      favoured over its partner or its partner has nothing on offer. */
  ghost predicate Chance(pins: seq<Pins4>, width: nat, t: nat, p: nat)
    requires AllFit(pins, width) && t < |pins| && p < 4
  {
    var out, other := Before(pins, width, t).out, 2 * (1 - p / 2);
    && pins[t].nextReady
    && (LastPair0(out) == (p / 2 == 1) || !(Offers(pins, width, t, other) || Offers(pins, width, t, other + 1)))
    && (Favoured(out, p) || !Offers(pins, width, t, Partner(p)))
  }

  lemma ServedOnChance(pins: seq<Pins4>, width: nat, t: nat, p: nat)
    requires AllFit(pins, width) && t < |pins| && p < 4
    ensures Serves(pins, width, t, p) <==> Chance(pins, width, t, p) && Offers(pins, width, t, p)
  {
    assert PinsFit(pins[t], width);
    ServedExactly(pins[..t], pins[t], width, p);
  }

  /** A word on offer that is not taken is still on offer in the next cycle. */
  lemma StaysOnOffer(pins: seq<Pins4>, width: nat, t: nat, p: nat)
    requires AllFit(pins, width) && t + 1 < |pins| && p < 4
    requires Offers(pins, width, t, p) && !Serves(pins, width, t, p)
    ensures Offers(pins, width, t + 1, p)
  {
    assert pins[..t + 1][..t] == pins[..t];
    var r := Before(pins, width, t);
    EdgeKeepsStream(r.s.b[p], pins[t].offers[p], Pick(r.s, pins[t], p));
  }

  /** While none of the cycles before t serves it, a port that waits since `from` waits at t. */
  lemma {:induction false} StillWaits(pins: seq<Pins4>, width: nat, from: nat, t: nat, p: nat)
    requires AllFit(pins, width) && from <= t < |pins| && p < 4 && Offers(pins, width, from, p)
    requires forall j :: from <= j < t ==> !Serves(pins, width, j, p)
    ensures Offers(pins, width, t, p)
  {
    if from < t {
      StillWaits(pins, width, from, t - 1, p);
      StaysOnOffer(pins, width, t - 1, p);
    }
  }

  /** A port that has a word on offer in cycle `from` is served before cycle `to` if and only if one of these
      cycles is a chance for it. For ports 2 and 3 this is all there is: their turn is decided by the first
      pair, so a chance may never come. */
  lemma WaitEndsExactly(pins: seq<Pins4>, width: nat, from: nat, to: nat, p: nat)
    requires AllFit(pins, width) && from < to <= |pins| && p < 4 && Offers(pins, width, from, p)
    ensures (exists t :: from <= t < to && Serves(pins, width, t, p)) <==>
              (exists t :: from <= t < to && Chance(pins, width, t, p))
  {
    if t :| from <= t < to && Serves(pins, width, t, p) {
      ServedOnChance(pins, width, t, p);
    }
    if t :| from <= t < to && Chance(pins, width, t, p) {
      if forall j :: from <= j < t ==> !Serves(pins, width, j, p) {
        StillWaits(pins, width, from, t, p);
        ServedOnChance(pins, width, t, p);
      }
    }
  }

  // ---- The second pair ------------------------------------------------------------------------------

  /** In every cycle the second pair is valid on both ports and the first pair on neither. */
  ghost predicate OnlySecondPair(pins: seq<Pins4>) {
    forall t :: 0 <= t < |pins| ==>
      |pins[t].offers| == 4 && !pins[t].offers[0].valid && !pins[t].offers[1].valid
      && pins[t].offers[2].valid && pins[t].offers[3].valid
  }

  /** The number of cycles in which the consumer is ready. */
  function ReadyCycles(pins: seq<Pins4>): nat {
    if pins == [] then 0
    else ReadyCycles(pins[..|pins| - 1]) + (if pins[|pins| - 1].nextReady then 1 else 0)
  }

  /** The first pair's buffers are empty, its bit is clear, and only port 2 was ever served. */
  ghost predicate OnlyPortTwo(r: Run4, width: nat) {
    && Sized(r, width) && !r.s.r2[0] && !r.s.b[0].held && !r.s.b[1].held
    && forall k :: 0 <= k < |r.out| ==> r.out[k].port == 2
  }

  lemma StepStarves(r: Run4, i: Pins4, width: nat)
    requires OnlyPortTwo(r, width) && PinsFit(i, width)
    requires !i.offers[0].valid && !i.offers[1].valid && i.offers[2].valid && i.offers[3].valid
    ensures var r' := Step4(r, i, width);
            && OnlyPortTwo(r', width) && r'.s.b[3].held
            && |r'.out| == |r.out| + (if i.nextReady then 1 else 0)
  {
    OneGrant(r.s, i);
    assert NextValid(r.s, i) == i.nextReady;
    assert !Pick(r.s, i, 0) && !Pick(r.s, i, 1) && !Pick(r.s, i, 3);
  }

  /** The ports of the second pair are not fair to each other: with both of them valid and the first pair idle,
      every cycle in which the consumer is ready serves port 2, so port 3 waits however often the output
      moves. */
  lemma {:induction false} PortThreeStarves(pins: seq<Pins4>, width: nat)
    requires AllFit(pins, width) && OnlySecondPair(pins)
    ensures var r := RunAll4(pins, width);
            && OnlyPortTwo(r, width) && FromPort(r.out, 3) == []
            && |r.out| == ReadyCycles(pins)
            && (pins != [] ==> r.s.b[3].held)
  {
    if pins != [] {
      var front, i := pins[..|pins| - 1], pins[|pins| - 1];
      PortThreeStarves(front, width);
      StepStarves(RunAll4(front, width), i, width);
    }
    NothingFrom(RunAll4(pins, width).out, 3);
  }

  lemma {:induction false} NothingFrom(out: seq<Grant<Word>>, p: nat)
    requires forall k :: 0 <= k < |out| ==> out[k].port != p
    ensures FromPort(out, p) == []
  {
    if out != [] { NothingFrom(out[..|out| - 1], p); }
  }

  lemma {:induction false} AlwaysReady(pins: seq<Pins4>)
    requires forall t :: 0 <= t < |pins| ==> pins[t].nextReady
    ensures ReadyCycles(pins) == |pins|
  {
    if pins != [] { AlwaysReady(pins[..|pins| - 1]); }
  }

  /** With a consumer that is always ready, a trace of any length serves port 2 in every cycle and port 3 in
      none. */
  lemma PortThreeStarvesReady(pins: seq<Pins4>, width: nat)
    requires AllFit(pins, width) && OnlySecondPair(pins) && pins != []
    requires forall t :: 0 <= t < |pins| ==> pins[t].nextReady
    ensures var r := RunAll4(pins, width);
            |r.out| == |pins| && (forall k :: 0 <= k < |pins| ==> r.out[k].port == 2) && r.s.b[3].held
  {
    PortThreeStarves(pins, width);
    AlwaysReady(pins);
  }
}
