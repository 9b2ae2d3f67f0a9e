/** The two hardware FIFOs, one shifting its words towards the output under a one-hot occupancy token,
    the other a ring of RAM words between two pointers with one extra bit. Registers change together at
    each clock edge, so an edge is a function from the old registers to the new ones. */
module HardwareFifos {
  import opened Powers

  /** The inputs of one cycle. */
  datatype Pins<T> = Pins(din: T, wen: bool, ren: bool)

  /** The outputs of one cycle. */
  datatype View<T> = View(empty: bool, full: bool, dout: T)

  // ---- The queue both implement --------------------------------------------------------------

  /** A read pops unless the queue is empty; a write pushes unless the queue is full and nothing pops. */
  function QueueEdge<T>(q: seq<T>, depth: nat, i: Pins<T>): seq<T> {
    var pop := i.ren && q != [];
    (if pop then q[1..] else q) + (if i.wen && (pop || |q| < depth) then [i.din] else [])
  }

  ghost predicate Shows<T>(v: View<T>, q: seq<T>, depth: nat) {
    && (v.empty <==> q == [])
    && (v.full <==> |q| == depth)
    && (q != [] ==> v.dout == q[0])
  }

  // ---- The shift FIFO -----------------------------------------------------------------------------

  /** `token[k]` says that the words at k and above are occupied; the output is the last word. */
  datatype Shift<T> = Shift(words: seq<T>, token: seq<bool>)

  ghost predicate ShiftFits<T>(s: Shift<T>, depth: nat) {
    depth > 0 && |s.words| == depth && |s.token| == depth + 1
  }

  function ShiftView<T>(s: Shift<T>, depth: nat): View<T>
    requires depth > 0 && |s.words| == depth && |s.token| == depth + 1
  {
    View(s.token[depth], s.token[0], s.words[depth - 1])
  }

  function ShiftEdge<T>(s: Shift<T>, depth: nat, zero: T, i: Pins<T>): (r: Shift<T>)
    requires depth > 0 && |s.words| == depth && |s.token| == depth + 1
    ensures |r.words| == depth && |r.token| == depth + 1
  {
    var pop := i.ren && !s.token[depth];
    var push := i.wen && !s.token[0];
    var hold := pop && i.wen;
    var popOnly := !hold && pop;
    var pushOnly := !hold && push;
    var words := seq(depth, k requires 0 <= k < depth =>
      var direct := (hold && s.token[k]) || (pushOnly && s.token[k + 1]);
      if !(hold || popOnly || direct) then s.words[k]
      else if direct then i.din
      else if k == 0 then zero else s.words[k - 1]);
    var token := seq(depth + 1, k requires 0 <= k <= depth =>
      if !(pushOnly || popOnly) then s.token[k]
      else if popOnly then k > 0 && s.token[k - 1]
      else k < depth && s.token[k + 1]);
    Shift(words, token)
  }

  /** The queue a shift FIFO holds when its token is at k: from the output word back to word k. */
  function ShiftQueue<T>(s: Shift<T>, k: nat): (q: seq<T>)
    requires k <= |s.words|
    ensures |q| == |s.words| - k
  {
    seq(|s.words| - k, j requires 0 <= j < |s.words| - k => s.words[|s.words| - 1 - j])
  }

  ghost predicate ShiftHolds<T>(s: Shift<T>, depth: nat, q: seq<T>) {
    ShiftFits(s, depth) && |q| <= depth && s.token == OneHot(depth + 1, depth - |q|) && q == ShiftQueue(s, depth - |q|)
  }

  lemma ShiftRefines<T>(s: Shift<T>, depth: nat, zero: T, i: Pins<T>, q: seq<T>)
    requires ShiftHolds(s, depth, q)
    ensures Shows(ShiftView(s, depth), q, depth)
    ensures ShiftHolds(ShiftEdge(s, depth, zero, i), depth, QueueEdge(q, depth, i))
  {
    var q', s', k := QueueEdge(q, depth, i), ShiftEdge(s, depth, zero, i), depth - |q|;
    assert forall j :: 0 <= j <= depth ==> (s.token[j] <==> j == k);
    assert s'.token == OneHot(depth + 1, depth - |q'|);
    ShiftedWords(s, depth, zero, i, q);
  }

  lemma ShiftedWords<T>(s: Shift<T>, depth: nat, zero: T, i: Pins<T>, q: seq<T>)
    requires ShiftHolds(s, depth, q)
    ensures var q' := QueueEdge(q, depth, i);
            |q'| <= depth && q' == ShiftQueue(ShiftEdge(s, depth, zero, i), depth - |q'|)
  {
    var q', s', k := QueueEdge(q, depth, i), ShiftEdge(s, depth, zero, i), depth - |q|;
    assert forall j :: 0 <= j <= depth ==> (s.token[j] <==> j == k);
    forall j | 0 <= j < |q'| ensures q'[j] == s'.words[depth - 1 - j] {
      if j < |q| { assert q[j] == s.words[depth - 1 - j]; }
      if j + 1 < |q| { assert q[j + 1] == s.words[depth - 2 - j]; }
    }
  }

  // ---- The RAM FIFO -----------------------------------------------------------------------------

  /** The pointers have one bit more than an address: they count modulo twice the depth. */
  datatype Ring<T> = Ring(ram: seq<T>, wptr: nat, rptr: nat)

  ghost predicate RingFits<T>(s: Ring<T>, depth: nat) {
    depth > 0 && |s.ram| == depth && s.wptr < 2 * depth && s.rptr < 2 * depth
  }

  /** The address bits of a pointer. */
  function Address(depth: nat, p: nat): nat {
    if p < depth then p else p - depth
  }

  function Increment(depth: nat, p: nat): nat {
    if p + 1 == 2 * depth then 0 else p + 1
  }

  function RingView<T>(s: Ring<T>, depth: nat): View<T>
    requires depth > 0 && |s.ram| == depth && s.wptr < 2 * depth && s.rptr < 2 * depth
  {
    var overlap := Address(depth, s.wptr) == Address(depth, s.rptr);
    var sameLap := (s.wptr >= depth) == (s.rptr >= depth);
    View(overlap && sameLap, overlap && !sameLap, s.ram[Address(depth, s.rptr)])
  }

  function RingEdge<T>(s: Ring<T>, depth: nat, i: Pins<T>): (r: Ring<T>)
    requires depth > 0 && |s.ram| == depth && s.wptr < 2 * depth && s.rptr < 2 * depth
    ensures |r.ram| == depth && r.wptr < 2 * depth && r.rptr < 2 * depth
  {
    var v := RingView(s, depth);
    var pop := i.ren && !v.empty;
    var push := i.wen && !v.full;
    var hold := pop && i.wen;
    var popOnly := !hold && pop;
    var pushOnly := !hold && push;
    Ring(if hold || pushOnly then s.ram[Address(depth, s.wptr) := i.din] else s.ram,
         if pushOnly || hold then Increment(depth, s.wptr) else s.wptr,
         if popOnly || hold then Increment(depth, s.rptr) else s.rptr)
  }

  /** The pointer k places after p. */
  function Ahead(depth: nat, p: nat, k: nat): nat {
    if p + k < 2 * depth then p + k else p + k - 2 * depth
  }

  ghost predicate RingHolds<T>(s: Ring<T>, depth: nat, q: seq<T>) {
    && RingFits(s, depth) && |q| <= depth
    && s.wptr == Ahead(depth, s.rptr, |q|)
    && forall k :: 0 <= k < |q| ==> q[k] == s.ram[Address(depth, Ahead(depth, s.rptr, k))]
  }

  lemma AheadAddresses(depth: nat, p: nat, j: nat, k: nat)
    requires 0 < depth && p < 2 * depth && j <= depth && k <= depth
    ensures Ahead(depth, Increment(depth, p), j) == Ahead(depth, p, j + 1)
    ensures Increment(depth, Ahead(depth, p, k)) == Ahead(depth, p, k + 1)
    ensures j < k && k - j < depth ==>
              Address(depth, Ahead(depth, p, j)) != Address(depth, Ahead(depth, p, k))
  {
  }

  lemma RingShows<T>(s: Ring<T>, depth: nat, q: seq<T>)
    requires RingHolds(s, depth, q)
    ensures Shows(RingView(s, depth), q, depth)
  {
    if q != [] { assert q[0] == s.ram[Address(depth, Ahead(depth, s.rptr, 0))]; }
  }

  /** A write behind the queue leaves its words as they are, and becomes the next word. */
  lemma RingWords<T>(s: Ring<T>, depth: nat, q: seq<T>, x: T, push: bool, from: nat)
    requires RingHolds(s, depth, q) && (from < |q| || (push && from == |q|))
    requires push ==> from + depth > |q|
    ensures var ram := if push then s.ram[Address(depth, s.wptr) := x] else s.ram;
            ram[Address(depth, Ahead(depth, s.rptr, from))] == if from < |q| then q[from] else x
  {
    if from < |q| { AheadAddresses(depth, s.rptr, from, |q|); }
  }

  lemma RingPointers<T>(s: Ring<T>, depth: nat, i: Pins<T>, q: seq<T>)
    requires RingHolds(s, depth, q)
    ensures var s', q', pop := RingEdge(s, depth, i), QueueEdge(q, depth, i), i.ren && q != [];
            var push := i.wen && (pop || |q| < depth);
            && s'.ram == (if push then s.ram[Address(depth, s.wptr) := i.din] else s.ram)
            && |q'| <= depth
            && s'.wptr == Ahead(depth, s'.rptr, |q'|)
            && s'.rptr == Ahead(depth, s.rptr, if pop then 1 else 0)
  {
    RingShows(s, depth, q);
  }

  lemma RingRefines<T>(s: Ring<T>, depth: nat, i: Pins<T>, q: seq<T>)
    requires RingHolds(s, depth, q)
    ensures Shows(RingView(s, depth), q, depth)
    ensures RingHolds(RingEdge(s, depth, i), depth, QueueEdge(q, depth, i))
  {
    RingShows(s, depth, q);
    RingPointers(s, depth, i, q);
    var s', q', pop := RingEdge(s, depth, i), QueueEdge(q, depth, i), i.ren && q != [];
    forall k | 0 <= k < |q'| ensures q'[k] == s'.ram[Address(depth, Ahead(depth, s'.rptr, k))] {
      var from := if pop then k + 1 else k;
      assert Ahead(depth, s'.rptr, k) == Ahead(depth, s.rptr, from);
      RingWords(s, depth, q, i.din, i.wen && (pop || |q| < depth), from);
    }
  }

  // ---- Whole traces ---------------------------------------------------------------------------------

  /** The shift FIFO after reset with the given words, `held` of them occupied. */
  function ShiftReset<T>(words: seq<T>, held: nat): Shift<T>
    requires held <= |words|
  {
    Shift(seq(|words|, k requires 0 <= k < |words| => words[|words| - 1 - k]),
          seq(|words| + 1, k => k == |words| - held))
  }

  function RingReset<T>(words: seq<T>, held: nat): Ring<T> {
    Ring(words, held, 0)
  }

  function ShiftTrace<T>(s: Shift<T>, depth: nat, zero: T, pins: seq<Pins<T>>): (vs: seq<View<T>>)
    requires depth > 0 && |s.words| == depth && |s.token| == depth + 1
    ensures |vs| == |pins| + 1
    decreases |pins|
  {
    [ShiftView(s, depth)] +
    if pins == [] then [] else ShiftTrace(ShiftEdge(s, depth, zero, pins[0]), depth, zero, pins[1..])
  }

  function RingTrace<T>(s: Ring<T>, depth: nat, pins: seq<Pins<T>>): (vs: seq<View<T>>)
    requires depth > 0 && |s.ram| == depth && s.wptr < 2 * depth && s.rptr < 2 * depth
    ensures |vs| == |pins| + 1
    decreases |pins|
  {
    [RingView(s, depth)] + if pins == [] then [] else RingTrace(RingEdge(s, depth, pins[0]), depth, pins[1..])
  }

  /** The same flags, and the same word at the output whenever there is one. */
  ghost predicate SameView<T>(a: View<T>, b: View<T>) {
    a.empty == b.empty && a.full == b.full && (!a.empty ==> a.dout == b.dout)
  }

  /** The queue after the first t cycles. */
  function QueueAfter<T>(q: seq<T>, depth: nat, pins: seq<Pins<T>>, t: nat): seq<T>
    requires t <= |pins|
    decreases t
  {
    if t == 0 then q else QueueAfter(QueueEdge(q, depth, pins[0]), depth, pins[1..], t - 1)
  }

  lemma ShiftTraceAt<T>(s: Shift<T>, depth: nat, zero: T, pins: seq<Pins<T>>, t: nat)
    requires depth > 0 && |s.words| == depth && |s.token| == depth + 1 && t <= |pins|
    ensures ShiftTrace(s, depth, zero, pins)[t] ==
            if t == 0 then ShiftView(s, depth)
            else ShiftTrace(ShiftEdge(s, depth, zero, pins[0]), depth, zero, pins[1..])[t - 1]
  {
  }

  lemma RingTraceAt<T>(s: Ring<T>, depth: nat, pins: seq<Pins<T>>, t: nat)
    requires depth > 0 && |s.ram| == depth && s.wptr < 2 * depth && s.rptr < 2 * depth && t <= |pins|
    ensures RingTrace(s, depth, pins)[t] ==
            if t == 0 then RingView(s, depth) else RingTrace(RingEdge(s, depth, pins[0]), depth, pins[1..])[t - 1]
  {
  }

  /** In every cycle of every trace both FIFOs show the queue. */
  lemma {:induction false} TracesShowQueue<T>(a: Shift<T>, b: Ring<T>, depth: nat, zero: T, pins: seq<Pins<T>>,
                                              q: seq<T>, t: nat)
    requires ShiftHolds(a, depth, q) && RingHolds(b, depth, q) && t <= |pins|
    ensures var queue := QueueAfter(q, depth, pins, t);
            && Shows(ShiftTrace(a, depth, zero, pins)[t], queue, depth)
            && Shows(RingTrace(b, depth, pins)[t], queue, depth)
    decreases t
  {
    ShiftTraceAt(a, depth, zero, pins, t);
    RingTraceAt(b, depth, pins, t);
    var i := if pins == [] then Pins(zero, false, false) else pins[0];
    ShiftRefines(a, depth, zero, i, q);
    RingRefines(b, depth, i, q);
    if t > 0 {
      TracesShowQueue(ShiftEdge(a, depth, zero, i), RingEdge(b, depth, i), depth, zero, pins[1..],
                      QueueEdge(q, depth, i), t - 1);
    }
  }

  /** From matching reset states of the same power-of-two depth, for every input trace, both FIFOs show
      in every cycle the queue that starts with the reset words, and so the same flags and the same
      output words. */
  lemma FifoEquivalence<T>(depthLog2: nat, words: seq<T>, held: nat, zero: T, pins: seq<Pins<T>>, t: nat)
    requires |words| == Pow2(depthLog2) && held <= |words| && t <= |pins|
    ensures var a := ShiftTrace(ShiftReset(words, held), |words|, zero, pins);
            var b := RingTrace(RingReset(words, held), |words|, pins);
            var queue := QueueAfter(words[..held], |words|, pins, t);
            Shows(a[t], queue, |words|) && Shows(b[t], queue, |words|) && SameView(a[t], b[t])
  {
    var depth, q := |words|, words[..held];
    var a := ShiftReset(words, held);
    assert a.token == OneHot(depth + 1, depth - held);
    assert q == ShiftQueue(a, depth - held);
    TracesShowQueue(a, RingReset(words, held), depth, zero, pins, q, t);
  }

  // ---- The streams in and out ---------------------------------------------------------------------------

  /** The word a cycle takes in, judged by the flags alone: a write is accepted unless full, and when full if a
      word is read in the same cycle. */
  function Taken<T>(v: View<T>, i: Pins<T>): seq<T> {
    if i.wen && (!v.full || (i.ren && !v.empty)) then [i.din] else []
  }

  /** The word a cycle gives out: the one shown, if any and if it is read. */
  function Given<T>(v: View<T>, i: Pins<T>): seq<T> {
    if i.ren && !v.empty then [v.dout] else []
  }

  function AllTaken<T>(vs: seq<View<T>>, pins: seq<Pins<T>>, n: nat): seq<T>
    requires n <= |pins| < |vs|
  {
    if n == 0 then [] else AllTaken(vs, pins, n - 1) + Taken(vs[n - 1], pins[n - 1])
  }

  function AllGiven<T>(vs: seq<View<T>>, pins: seq<Pins<T>>, n: nat): seq<T>
    requires n <= |pins| < |vs|
  {
    if n == 0 then [] else AllGiven(vs, pins, n - 1) + Given(vs[n - 1], pins[n - 1])
  }

  lemma {:induction false} QueueNext<T>(q: seq<T>, depth: nat, pins: seq<Pins<T>>, t: nat)
    requires t < |pins|
    ensures QueueAfter(q, depth, pins, t + 1) == QueueEdge(QueueAfter(q, depth, pins, t), depth, pins[t])
    decreases t
  {
    if t > 0 { QueueNext(QueueEdge(q, depth, pins[0]), depth, pins[1..], t - 1); }
  }

  /** One cycle of the queue: what it held and takes in is what it gives out and holds. */
  lemma QueueStream<T>(q: seq<T>, depth: nat, v: View<T>, i: Pins<T>)
    requires depth > 0 && |q| <= depth && Shows(v, q, depth)
    ensures q + Taken(v, i) == Given(v, i) + QueueEdge(q, depth, i) && |QueueEdge(q, depth, i)| <= depth
  {
    if q != [] { assert q == [q[0]] + q[1..]; }
  }

  lemma {:induction false} TraceStream<T>(vs: seq<View<T>>, q: seq<T>, depth: nat, pins: seq<Pins<T>>, n: nat)
    requires |vs| == |pins| + 1 && n <= |pins| && depth > 0 && |q| <= depth
    requires forall t :: 0 <= t <= n ==> Shows(vs[t], QueueAfter(q, depth, pins, t), depth)
    ensures q + AllTaken(vs, pins, n) == AllGiven(vs, pins, n) + QueueAfter(q, depth, pins, n)
    ensures |QueueAfter(q, depth, pins, n)| <= depth
  {
    if n > 0 {
      var q', i, v := QueueAfter(q, depth, pins, n - 1), pins[n - 1], vs[n - 1];
      TraceStream(vs, q, depth, pins, n - 1);
      QueueNext(q, depth, pins, n - 1);
      QueueStream(q', depth, v, i);
      Regroup(q, AllTaken(vs, pins, n - 1), AllGiven(vs, pins, n - 1), q', Taken(v, i), Given(v, i),
              QueueEdge(q', depth, i));
    }
  }

  lemma Regroup<T>(q: seq<T>, taken: seq<T>, given: seq<T>, q': seq<T>, t: seq<T>, g: seq<T>, r: seq<T>)
    requires q + taken == given + q' && q' + t == g + r
    ensures q + (taken + t) == (given + g) + r
  {
    assert q + (taken + t) == (q + taken) + t;
    assert (given + q') + t == given + (q' + t);
    assert given + (g + r) == (given + g) + r;
  }

  /** For every input trace from reset, and for both FIFOs: the reset words followed by the words accepted are the
      words given out followed by at most `depth` words. Nothing is lost, repeated or reordered. */
  lemma FifoStream<T>(depthLog2: nat, words: seq<T>, held: nat, zero: T, pins: seq<Pins<T>>)
    requires |words| == Pow2(depthLog2) && held <= |words|
    ensures var a := ShiftTrace(ShiftReset(words, held), |words|, zero, pins);
            var b := RingTrace(RingReset(words, held), |words|, pins);
            var queue := QueueAfter(words[..held], |words|, pins, |pins|);
            && words[..held] + AllTaken(a, pins, |pins|) == AllGiven(a, pins, |pins|) + queue
            && words[..held] + AllTaken(b, pins, |pins|) == AllGiven(b, pins, |pins|) + queue
            && |queue| <= |words|
  {
    var a := ShiftTrace(ShiftReset(words, held), |words|, zero, pins);
    var b := RingTrace(RingReset(words, held), |words|, pins);
    forall t | 0 <= t <= |pins|
      ensures Shows(a[t], QueueAfter(words[..held], |words|, pins, t), |words|)
      ensures Shows(b[t], QueueAfter(words[..held], |words|, pins, t), |words|)
    {
      FifoEquivalence(depthLog2, words, held, zero, pins, t);
    }
    TraceStream(a, words[..held], |words|, pins, |pins|);
    TraceStream(b, words[..held], |words|, pins, |pins|);
  }
}
