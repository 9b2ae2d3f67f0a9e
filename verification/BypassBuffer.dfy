/** The skid buffer between two pipeline stages: it passes its input through, and catches the word the
    next stage does not take. */
module BypassBuffers {

  /** The two registers: the word caught, and whether there is one. */
  datatype Skid<T> = Skid(word: T, held: bool)

  /** What the previous stage offers. */
  datatype Offer<T> = Offer(data: T, valid: bool)

  predicate Ready<T>(b: Skid<T>) {
    !b.held
  }

  predicate OutValid<T>(b: Skid<T>, i: Offer<T>) {
    b.held || i.valid
  }

  function OutData<T>(b: Skid<T>, i: Offer<T>): T {
    if b.held then b.word else i.data
  }

  function Edge<T>(b: Skid<T>, i: Offer<T>, nextReady: bool): Skid<T> {
    var catch := !b.held && i.valid && !nextReady;
    Skid(if catch then i.data else b.word, if b.held then !nextReady else catch)
  }

  /** The words of one cycle, or of the buffer, as a stream of at most one word. */
  function Held<T>(b: Skid<T>): seq<T> {
    if b.held then [b.word] else []
  }

  function Accepted<T>(b: Skid<T>, i: Offer<T>): seq<T> {
    if i.valid && Ready(b) then [i.data] else []
  }

  function Delivered<T>(b: Skid<T>, i: Offer<T>, nextReady: bool): seq<T> {
    if OutValid(b, i) && nextReady then [OutData(b, i)] else []
  }

  /** A buffer loses, repeats and reorders nothing; and a word on offer that is not taken stays on offer. */
  lemma EdgeKeepsStream<T>(b: Skid<T>, i: Offer<T>, nextReady: bool)
    ensures Held(b) + Accepted(b, i) == Delivered(b, i, nextReady) + Held(Edge(b, i, nextReady))
    ensures OutValid(b, i) && !nextReady ==>
              Edge(b, i, nextReady).held && Edge(b, i, nextReady).word == OutData(b, i)
  {
  }

  /** The buffer takes a word exactly while it holds none, offers one exactly when it holds or is offered one, and
      passes a word through to a ready consumer in the same cycle. A ready consumer empties it. */
  lemma PassesThrough<T>(b: Skid<T>, i: Offer<T>)
    ensures Ready(b) <==> Held(b) == []
    ensures OutValid(b, i) <==> Held(b) != [] || i.valid
    ensures i.valid && Held(b) == [] ==> Delivered(b, i, true) == [i.data]
    ensures Held(Edge(b, i, true)) == []
  {
  }
}
