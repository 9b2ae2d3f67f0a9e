/** The emulated FIFO: a ring with wrap bits, to which a cycle may push and from which it may pop any
    number of payloads; `Eval` applies what was accepted. */
module RingFifos {
  import opened Wrappers

  datatype Modification<T> = Modification(index: nat, payload: T)

  /** The number of payloads between two ring positions with their wrap bits. */
  function Count(size: nat, rptr: int, rptrb: bool, wptr: int, wptrb: bool): int {
    wptr - rptr + (if wptrb == rptrb then 0 else size)
  }

  /** Ring positions stay below the size, and the writer is at most one lap ahead. */
  ghost predicate InRing(size: nat, rptr: int, rptrb: bool, wptr: int, wptrb: bool) {
    && (if size == 0 then rptr == 0 && wptr == 0 && rptrb == wptrb
        else 0 <= rptr < size && 0 <= wptr < size)
    && 0 <= Count(size, rptr, rptrb, wptr, wptrb) <= size
  }

  /** The ring index k places after p. */
  function At(size: nat, p: int, k: int): int {
    if p + k < size then p + k else p + k - size
  }

  function Contents<T>(memory: seq<T>, rptr: int, rptrb: bool, wptr: int, wptrb: bool): (q: seq<T>)
    requires InRing(|memory|, rptr, rptrb, wptr, wptrb)
    ensures |q| == Count(|memory|, rptr, rptrb, wptr, wptrb)
  {
    seq(Count(|memory|, rptr, rptrb, wptr, wptrb),
        k requires 0 <= k < Count(|memory|, rptr, rptrb, wptr, wptrb) => memory[At(|memory|, rptr, k)])
  }

  /** Every staged write goes to the next free ring position in turn. */
  ghost predicate Appends<T>(size: nat, wptr: int, ms: seq<Modification<T>>) {
    forall k :: 0 <= k < |ms| ==> ms[k].index == At(size, wptr, k) < size
  }

  function Payloads<T>(ms: seq<Modification<T>>): (ps: seq<T>)
    ensures |ps| == |ms|
  {
    seq(|ms|, k requires 0 <= k < |ms| => ms[k].payload)
  }

  /** The memory after the first k staged writes. */
  function Written<T>(memory: seq<T>, ms: seq<Modification<T>>, k: nat): (r: seq<T>)
    requires k <= |ms| && forall j :: 0 <= j < |ms| ==> ms[j].index < |memory|
    ensures |r| == |memory|
  {
    if k == 0 then memory else Written(memory, ms, k - 1)[ms[k - 1].index := ms[k - 1].payload]
  }

  /** Writes to distinct ring positions: position j past the writer holds payload j if that many were
      written, and what it held before otherwise. */
  lemma {:induction false} WrittenAt<T>(memory: seq<T>, wptr: int, ms: seq<Modification<T>>, k: nat, j: nat)
    requires 0 <= wptr < |memory| && k <= |ms| <= |memory| && Appends(|memory|, wptr, ms) && j < |memory|
    ensures Written(memory, ms, k)[At(|memory|, wptr, j)] ==
              if j < k then ms[j].payload else memory[At(|memory|, wptr, j)]
  {
    if k > 0 { WrittenAt(memory, wptr, ms, k - 1, j); }
  }

  /** A pointer and its wrap bit after a clock edge; -1 in `set` or `setb` means not set directly. */
  function NextPointer(size: nat, p: int, b: bool, delta: nat, set_: int, setb: int): (int, bool) {
    var p' := if set_ != -1 then set_ else p + delta;
    var b' := if setb != -1 then setb != 0 else b;
    if p' >= size then (p' - size, !b') else (p', b')
  }

  /** An index that is not written by the writes from j on keeps what it had before them. */
  lemma {:induction false} NotWritten<T>(memory: seq<T>, ms: seq<Modification<T>>, j: nat, n: nat, x: nat)
    requires j <= n <= |ms| && x < |memory| && forall k :: 0 <= k < |ms| ==> ms[k].index < |memory|
    requires forall k :: j <= k < n ==> ms[k].index != x
    ensures Written(memory, ms, n)[x] == Written(memory, ms, j)[x]
  {
    if j < n { NotWritten(memory, ms, j, n - 1, x); }
  }

  /** Of several writes to one index the last one stands. */
  lemma LastWriteStands<T>(memory: seq<T>, ms: seq<Modification<T>>, j: nat, n: nat)
    requires j < n <= |ms| && forall k :: 0 <= k < |ms| ==> ms[k].index < |memory|
    requires forall k :: j < k < n ==> ms[k].index != ms[j].index
    ensures Written(memory, ms, n)[ms[j].index] == ms[j].payload
  {
    NotWritten(memory, ms, j + 1, n, ms[j].index);
  }

  /** A pointer set directly goes where it is set, and its wrap bit too; unset, it moves by its delta and its wrap
      bit changes when it passes the end. Setting the reader to the writer, with its wrap bit, leaves nothing. */
  lemma PointersMove(size: nat, p: int, b: bool, delta: nat, target: nat, bit: bool)
    requires 0 <= p < size && delta <= size && target < size
    ensures NextPointer(size, p, b, delta, target, if bit then 1 else 0) == (target, bit)
    ensures NextPointer(size, p, b, delta, target, -1) == (target, b)
    ensures NextPointer(size, p, b, delta, -1, -1) == (At(size, p, delta), b != (p + delta >= size))
    ensures NextPointer(size, p, b, delta, -1, if bit then 1 else 0) == (At(size, p, delta), bit != (p + delta >= size))
    ensures Count(size, target, bit, target, bit) == 0
  {
  }

  /** The positions after pops and pushes that fit: still in the ring, and counted correctly. */
  lemma EdgePointers(size: nat, rptr: int, rptrb: bool, wptr: int, wptrb: bool, pops: nat, pushes: nat)
    requires InRing(size, rptr, rptrb, wptr, wptrb)
    requires pops <= Count(size, rptr, rptrb, wptr, wptrb) && pushes <= size - Count(size, rptr, rptrb, wptr, wptrb)
    ensures var (r, rb) := NextPointer(size, rptr, rptrb, pops, -1, -1);
            var (w, wb) := NextPointer(size, wptr, wptrb, pushes, -1, -1);
            && InRing(size, r, rb, w, wb)
            && Count(size, r, rb, w, wb) == Count(size, rptr, rptrb, wptr, wptrb) - pops + pushes
            && (size > 0 ==> r == At(size, rptr, pops) && wptr == At(size, rptr, Count(size, rptr, rptrb, wptr, wptrb)))
  {
  }

  /** Position k after the edge, as a place past the old writer or past the old reader. */
  lemma EdgePosition(size: nat, rptr: int, rptrb: bool, wptr: int, wptrb: bool, pops: nat, k: nat)
    requires size > 0 && InRing(size, rptr, rptrb, wptr, wptrb) && k < size
    requires pops <= Count(size, rptr, rptrb, wptr, wptrb)
    ensures var left := Count(size, rptr, rptrb, wptr, wptrb) - pops;
            var r := At(size, rptr, pops);
            && r < size
            && At(size, r, k) == At(size, wptr, if k < left then size - left + k else k - left)
            && (k < left ==> At(size, r, k) == At(size, rptr, pops + k))
  {
  }

  /** Every ring position past the writer holds the payload pushed there, or what it held before. */
  ghost predicate Overlaid<T>(memory: seq<T>, wptr: int, ms: seq<Modification<T>>, after: seq<T>)
    requires 0 <= wptr < |memory|
  {
    && |after| == |memory|
    && forall j :: 0 <= j < |memory| ==>
         after[At(|memory|, wptr, j)] == if j < |ms| then ms[j].payload else memory[At(|memory|, wptr, j)]
  }

  lemma WrittenOverlays<T>(memory: seq<T>, wptr: int, ms: seq<Modification<T>>)
    requires 0 <= wptr < |memory| && |ms| <= |memory| && Appends(|memory|, wptr, ms)
    ensures Overlaid(memory, wptr, ms, Written(memory, ms, |ms|))
  {
    forall j | 0 <= j < |memory|
      ensures Written(memory, ms, |ms|)[At(|memory|, wptr, j)] ==
                if j < |ms| then ms[j].payload else memory[At(|memory|, wptr, j)]
    {
      WrittenAt(memory, wptr, ms, |ms|, j);
    }
  }

  /** The payload at place k after the edge: an old one if any is left there, otherwise a pushed one. */
  lemma EdgePayload<T>(memory: seq<T>, rptr: int, rptrb: bool, wptr: int, wptrb: bool,
                       pops: nat, ms: seq<Modification<T>>, after: seq<T>, k: nat)
    requires |memory| > 0 && InRing(|memory|, rptr, rptrb, wptr, wptrb) && Overlaid(memory, wptr, ms, after)
    requires pops <= Count(|memory|, rptr, rptrb, wptr, wptrb)
    requires |ms| <= |memory| - Count(|memory|, rptr, rptrb, wptr, wptrb)
    requires k < Count(|memory|, rptr, rptrb, wptr, wptrb) - pops + |ms|
    ensures var size, left := |memory|, Count(|memory|, rptr, rptrb, wptr, wptrb) - pops;
            var at := At(size, At(size, rptr, pops), k);
            && 0 <= at < size
            && after[at] == if k < left then memory[At(size, rptr, pops + k)] else ms[k - left].payload
  {
    var size, left := |memory|, Count(|memory|, rptr, rptrb, wptr, wptrb) - pops;
    EdgePosition(size, rptr, rptrb, wptr, wptrb, pops, k);
  }

  /** One clock edge of accepted pops and pushes: the popped prefix is gone, the pushed payloads follow. */
  lemma EdgeRefinesQueue<T>(memory: seq<T>, rptr: int, rptrb: bool, wptr: int, wptrb: bool,
                            pops: nat, ms: seq<Modification<T>>)
    requires InRing(|memory|, rptr, rptrb, wptr, wptrb) && Appends(|memory|, wptr, ms)
    requires pops <= Count(|memory|, rptr, rptrb, wptr, wptrb)
    requires |ms| <= |memory| - Count(|memory|, rptr, rptrb, wptr, wptrb)
    ensures var (r, rb) := NextPointer(|memory|, rptr, rptrb, pops, -1, -1);
            var (w, wb) := NextPointer(|memory|, wptr, wptrb, |ms|, -1, -1);
            && InRing(|memory|, r, rb, w, wb)
            && Contents(Written(memory, ms, |ms|), r, rb, w, wb) ==
                 Contents(memory, rptr, rptrb, wptr, wptrb)[pops..] + Payloads(ms)
  {
    EdgePointers(|memory|, rptr, rptrb, wptr, wptrb, pops, |ms|);
    if |memory| > 0 {
      WrittenOverlays(memory, wptr, ms);
      OverlaidQueue(memory, rptr, rptrb, wptr, wptrb, pops, ms, Written(memory, ms, |ms|));
    }
  }

  lemma OverlaidQueue<T>(memory: seq<T>, rptr: int, rptrb: bool, wptr: int, wptrb: bool,
                         pops: nat, ms: seq<Modification<T>>, after: seq<T>)
    requires |memory| > 0 && InRing(|memory|, rptr, rptrb, wptr, wptrb) && Overlaid(memory, wptr, ms, after)
    requires pops <= Count(|memory|, rptr, rptrb, wptr, wptrb)
    requires |ms| <= |memory| - Count(|memory|, rptr, rptrb, wptr, wptrb)
    ensures var (r, rb) := NextPointer(|memory|, rptr, rptrb, pops, -1, -1);
            var (w, wb) := NextPointer(|memory|, wptr, wptrb, |ms|, -1, -1);
            && InRing(|memory|, r, rb, w, wb)
            && Contents(after, r, rb, w, wb) ==
                 Contents(memory, rptr, rptrb, wptr, wptrb)[pops..] + Payloads(ms)
  {
    var (r, rb) := NextPointer(|memory|, rptr, rptrb, pops, -1, -1);
    var (w, wb) := NextPointer(|memory|, wptr, wptrb, |ms|, -1, -1);
    EdgePointers(|memory|, rptr, rptrb, wptr, wptrb, pops, |ms|);
    var q, q' := Contents(memory, rptr, rptrb, wptr, wptrb), Contents(after, r, rb, w, wb);
    forall k | 0 <= k < |q'| ensures q'[k] == (q[pops..] + Payloads(ms))[k] {
      EdgePayload(memory, rptr, rptrb, wptr, wptrb, pops, ms, after, k);
    }
  }

  // ---- Walking the ring -----------------------------------------------------------------------

  /** The position k places after a pointer. */
  function Walk(size: nat, p: int, b: bool, k: nat): (int, bool) {
    if k == 0 || p + k < size then (p + k, b) else (p + k - size, !b)
  }

  /** From the read pointer, the walk meets the write pointer after exactly as many steps as there are
      payloads, also when the ring is full, and passes over each payload on the way. */
  lemma WalkMeetsWriter<T>(memory: seq<T>, rptr: int, rptrb: bool, wptr: int, wptrb: bool, k: nat)
    requires InRing(|memory|, rptr, rptrb, wptr, wptrb)
    requires k <= Count(|memory|, rptr, rptrb, wptr, wptrb)
    ensures var size, count := |memory|, Count(|memory|, rptr, rptrb, wptr, wptrb);
            && (Walk(size, rptr, rptrb, k) == (wptr, wptrb) <==> k == count)
            && (k < count ==>
                  memory[Walk(size, rptr, rptrb, k).0] == Contents(memory, rptr, rptrb, wptr, wptrb)[k])
  {
  }

  class FIFO<T(0)> {
    const memory: array<T>
    var rptr: int
    var rptrb: bool
    var wptr: int
    var wptrb: bool
    var modification: seq<Modification<T>>
    var deltaRptr: nat
    var deltaWptr: nat
    var setRptr: int
    var setRptrb: int
    var setWptr: int
    var setWptrb: int

    ghost predicate Valid()
      reads this
    {
      && InRing(memory.Length, rptr, rptrb, wptr, wptrb)
      && forall k :: 0 <= k < |modification| ==> modification[k].index < memory.Length
    }

    /** Only accepted pushes and pops are staged, no pointer or payload was set directly. */
    ghost predicate Plain()
      requires Valid()
      reads this
    {
      && setRptr == -1 && setRptrb == -1 && setWptr == -1 && setWptrb == -1
      && |modification| == deltaWptr && Appends(memory.Length, wptr, modification)
      && deltaRptr <= Count(memory.Length, rptr, rptrb, wptr, wptrb)
      && deltaWptr <= memory.Length - Count(memory.Length, rptr, rptrb, wptr, wptrb)
    }

    ghost function Queue(): (q: seq<T>)
      requires Valid()
      reads this, memory
      ensures |q| == Count(memory.Length, rptr, rptrb, wptr, wptrb)
    {
      Contents(memory[..], rptr, rptrb, wptr, wptrb)
    }

    constructor (size: nat)
      ensures Valid() && Plain() && memory.Length == size && Queue() == [] && modification == [] && deltaRptr == 0
    {
      memory := new T[size];
      rptr, rptrb, wptr, wptrb := 0, false, 0, false;
      modification, deltaRptr, deltaWptr := [], 0, 0;
      setRptr, setRptrb, setWptr, setWptrb := -1, -1, -1, -1;
    }

    method GetCount() returns (count: int)
      requires Valid()
      ensures count == |Queue()| && 0 <= count <= memory.Length
    {
      count := wptr - rptr + (if wptrb == rptrb then 0 else memory.Length);
    }

    method GetRemainingSize() returns (room: int)
      requires Valid()
      ensures room == memory.Length - |Queue()|
    {
      var count := GetCount();
      room := memory.Length - count;
    }

    method IsEmpty() returns (empty: bool)
      requires Valid()
      ensures empty <==> Queue() == []
    {
      empty := wptr == rptr && wptrb == rptrb;
    }

    method IsFull() returns (full: bool)
      requires Valid()
      ensures full <==> |Queue()| == memory.Length > 0
    {
      full := wptr == rptr && wptrb != rptrb;
    }

    method PeekPayload() returns (payload: Option<T>)
      requires Valid()
      ensures payload == if Queue() == [] then None else Some(Queue()[0])
    {
      var empty := IsEmpty();
      if empty { return None; }
      payload := Some(memory[rptr]);
    }

    method PopPayload() returns (ok: bool)
      requires Valid()
      modifies this`deltaRptr
      ensures Valid() && (old(Plain()) ==> Plain())
      ensures ok <==> old(deltaRptr) < |Queue()|
      ensures deltaRptr == old(deltaRptr) + (if ok then 1 else 0)
    {
      var count := GetCount();
      ok := deltaRptr < count;
      if ok { deltaRptr := deltaRptr + 1; }
    }

    /** Accepts a push while there is room without counting on this cycle's pops. */
    method PushPayload(payload: T) returns (ok: bool)
      requires Valid()
      modifies this`modification, this`deltaWptr
      ensures Valid() && (old(Plain()) ==> Plain())
      ensures ok <==> old(deltaWptr) < memory.Length - |Queue()|
      ensures deltaWptr == old(deltaWptr) + (if ok then 1 else 0)
      ensures Payloads(modification) == Payloads(old(modification)) + (if ok then [payload] else [])
    {
      var room := GetRemainingSize();
      ok := deltaWptr < room;
      if ok {
        WrapOnce(memory.Length, wptr + deltaWptr);
        modification := modification + [Modification((wptr + deltaWptr) % memory.Length, payload)];
        deltaWptr := deltaWptr + 1;
      }
    }

    method SetPayload(index: nat, payload: T)
      requires Valid() && index < memory.Length
      modifies this`modification
      ensures Valid() && modification == old(modification) + [Modification(index, payload)]
    {
      modification := modification + [Modification(index, payload)];
    }

    method SetReadPointer(p: nat)
      modifies this`setRptr
      ensures setRptr == p
    {
      setRptr := p;
    }

    method SetReadPointerB(b: bool)
      modifies this`setRptrb
      ensures setRptrb == if b then 1 else 0
    {
      setRptrb := if b then 1 else 0;
    }

    method SetWritePointer(p: nat)
      modifies this`setWptr
      ensures setWptr == p
    {
      setWptr := p;
    }

    method SetWritePointerB(b: bool)
      modifies this`setWptrb
      ensures setWptrb == if b then 1 else 0
    {
      setWptrb := if b then 1 else 0;
    }

    method ResetInput()
      modifies this`deltaRptr, this`deltaWptr, this`setRptr, this`setRptrb, this`setWptr, this`setWptrb
      modifies this`modification
      ensures deltaRptr == 0 && deltaWptr == 0 && modification == []
      ensures setRptr == -1 && setRptrb == -1 && setWptr == -1 && setWptrb == -1
    {
      deltaRptr, deltaWptr, modification := 0, 0, [];
      setRptr, setRptrb, setWptr, setWptrb := -1, -1, -1, -1;
    }

    method ApplyModification()
      requires Valid()
      modifies memory
      ensures memory[..] == Written(old(memory[..]), modification, |modification|)
    {
      ghost var before := memory[..];
      for k := 0 to |modification|
        invariant memory[..] == Written(before, modification, k)
      {
        memory[modification[k].index] := modification[k].payload;
      }
    }

    /** Applies what is staged. Without direct sets the queue loses its popped prefix and gains the
        pushed payloads. */
    method Eval()
      requires Valid()
      modifies this, memory
      ensures memory[..] == Written(old(memory[..]), old(modification), |old(modification)|)
      ensures (rptr, rptrb) == old(NextPointer(memory.Length, rptr, rptrb, deltaRptr, setRptr, setRptrb))
      ensures (wptr, wptrb) == old(NextPointer(memory.Length, wptr, wptrb, deltaWptr, setWptr, setWptrb))
      ensures modification == [] && deltaRptr == 0 && deltaWptr == 0
      ensures old(Plain()) ==>
                Valid() && Plain() && Queue() == old(Queue())[old(deltaRptr)..] + old(Payloads(modification))
    {
      ghost var plain := Plain();
      if plain {
        EdgeRefinesQueue(memory[..], rptr, rptrb, wptr, wptrb, deltaRptr, modification);
      }
      ApplyModification();
      MoveReader();
      MoveWriter();
      ResetInput();
    }

    method MoveReader()
      modifies this`rptr, this`rptrb
      ensures (rptr, rptrb) == NextPointer(memory.Length, old(rptr), old(rptrb), deltaRptr, setRptr, setRptrb)
    {
      if setRptr != -1 { rptr := setRptr; } else { rptr := rptr + deltaRptr; }
      if setRptrb != -1 { rptrb := setRptrb != 0; }
      if rptr >= memory.Length { rptr, rptrb := rptr - memory.Length, !rptrb; }
    }

    method MoveWriter()
      modifies this`wptr, this`wptrb
      ensures (wptr, wptrb) == NextPointer(memory.Length, old(wptr), old(wptrb), deltaWptr, setWptr, setWptrb)
    {
      if setWptr != -1 { wptr := setWptr; } else { wptr := wptr + deltaWptr; }
      if setWptrb != -1 { wptrb := setWptrb != 0; }
      if wptr >= memory.Length { wptr, wptrb := wptr - memory.Length, !wptrb; }
    }
  }

  lemma WrapOnce(size: nat, x: int)
    requires 0 <= x < 2 * size
    ensures x % size == if x < size then x else x - size
  {
    if x >= size { assert x == 1 * size + (x - size); }
  }

  class Iterator<T(0)> {
    const owner: FIFO<T>
    var rptr: int
    var rptrb: bool

    /** The iterator is k steps past the beginning of its queue. */
    ghost predicate Stands(k: nat)
      requires owner.Valid()
      reads this, owner
    {
      k <= Count(owner.memory.Length, owner.rptr, owner.rptrb, owner.wptr, owner.wptrb)
      && (rptr, rptrb) == Walk(owner.memory.Length, owner.rptr, owner.rptrb, k)
    }

    constructor Begin(fifo: FIFO<T>)
      requires fifo.Valid()
      ensures owner == fifo && Stands(0)
    {
      owner := fifo;
      rptr, rptrb := fifo.rptr, fifo.rptrb;
    }

    /** There is a payload to look at. */
    method InRange(ghost k: nat) returns (b: bool)
      requires owner.Valid() && Stands(k)
      ensures b <==> k < |owner.Queue()|
    {
      WalkMeetsWriter(owner.memory[..], owner.rptr, owner.rptrb, owner.wptr, owner.wptrb, k);
      b := rptr != owner.wptr || rptrb != owner.wptrb;
    }

    /** The payload; None where the source throws. */
    method Get(ghost k: nat) returns (payload: Option<T>)
      requires owner.Valid() && Stands(k)
      ensures payload == if k < |owner.Queue()| then Some(owner.Queue()[k]) else None
    {
      var b := InRange(k);
      if !b { return None; }
      WalkMeetsWriter(owner.memory[..], owner.rptr, owner.rptrb, owner.wptr, owner.wptrb, k);
      payload := Some(owner.memory[rptr]);
    }

    /** One step; false where the source throws. */
    method Advance(ghost k: nat) returns (ok: bool)
      requires owner.Valid() && Stands(k)
      modifies this`rptr, this`rptrb
      ensures ok <==> k < |owner.Queue()|
      ensures if ok then Stands(k + 1) else rptr == old(rptr) && rptrb == old(rptrb)
    {
      ok := InRange(k);
      if ok {
        rptr := rptr + 1;
        if rptr == owner.memory.Length { rptr, rptrb := 0, !rptrb; }
      }
    }
  }

  /** The loop from Begin to End visits exactly the queue, in as many steps as it is long. */
  method VisitAll<T(0)>(fifo: FIFO<T>) returns (visited: seq<T>)
    requires fifo.Valid()
    ensures visited == fifo.Queue()
  {
    var iter := new Iterator<T>.Begin(fifo);
    visited := [];
    var more := iter.InRange(0);
    while more
      invariant iter.owner == fifo && fifo.Valid() && iter.Stands(|visited|)
      invariant visited == fifo.Queue()[..|visited|] && (more <==> |visited| < |fifo.Queue()|)
      decreases |fifo.Queue()| - |visited|
    {
      var payload := iter.Get(|visited|);
      var ok := iter.Advance(|visited|);
      visited := visited + [payload.value];
      more := iter.InRange(|visited|);
    }
  }
}
