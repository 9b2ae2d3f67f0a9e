/** A memory that compresses itself: every clock edge moves each valid entry below a hole one place up,
    while the edits staged for an entry follow it to its new place. High addresses are the oldest. */
module CompressingMemories {
  import opened Wrappers

  datatype Slot<T> = Slot(payload: T, valid: bool)

  datatype Edit<T> = Edit(payload: Option<T>, valid: Option<bool>) {
    function Apply(s: Slot<T>): Slot<T> {
      Slot(payload.GetOr(s.payload), valid.GetOr(s.valid))
    }
  }

  function NoEdit<T>(): Edit<T> {
    Edit(None, None)
  }

  // ---- One clock edge --------------------------------------------------------------------------

  /** Some entry at address i or above is not valid. */
  predicate Carry<T>(es: seq<Slot<T>>, i: nat)
    requires i <= |es|
    decreases |es| - i
  {
    i < |es| && (!es[i].valid || Carry(es, i + 1))
  }

  /** What step i leaves at address i. */
  function Vacated<T>(es: seq<Slot<T>>, ms: seq<Edit<T>>, i: nat): Slot<T>
    requires |ms| == |es| && i < |es|
  {
    if Carry(es, i + 1) then es[i].(valid := false) else ms[i].Apply(es[i])
  }

  /** What a clock edge leaves at address t: what step t left there, unless step t-1 moved up into it. */
  function NextSlot<T>(es: seq<Slot<T>>, ms: seq<Edit<T>>, t: nat): Slot<T>
    requires |ms| == |es| && t < |es|
  {
    if t > 0 && Carry(es, t)
    then ms[t - 1].Apply(if es[t - 1].valid then es[t - 1] else Vacated(es, ms, t))
    else Vacated(es, ms, t)
  }

  function Next<T>(es: seq<Slot<T>>, ms: seq<Edit<T>>): (r: seq<Slot<T>>)
    requires |ms| == |es|
    ensures |r| == |es|
  {
    seq(|es|, t requires 0 <= t < |es| => NextSlot(es, ms, t))
  }

  /** The address below the lowest valid entry; -1 if there is none. */
  function TopBelow<T>(es: seq<Slot<T>>, i: nat): (r: int)
    requires i <= |es|
    ensures i - 1 <= r < |es|
    ensures forall j :: i <= j <= r ==> !es[j].valid
    ensures r + 1 < |es| ==> es[r + 1].valid
    decreases |es| - i
  {
    if i == |es| || es[i].valid then i - 1 else TopBelow(es, i + 1)
  }

  function NextTopAddress<T>(es: seq<Slot<T>>): int {
    TopBelow(es, 0)
  }

  // ---- The age-ordered list ------------------------------------------------------------------

  /** The payloads of the valid entries at address i and above, oldest first. */
  function Aged<T>(es: seq<Slot<T>>, i: nat): seq<T>
    requires i <= |es|
    decreases |es| - i
  {
    if i == |es| then [] else Aged(es, i + 1) + (if es[i].valid then [es[i].payload] else [])
  }

  /** The same list with the staged edits: an element made invalid is gone, and one given a new payload has it. */
  function Edited<T>(es: seq<Slot<T>>, ms: seq<Edit<T>>, i: nat): seq<T>
    requires |ms| == |es| && i <= |es|
    decreases |es| - i
  {
    if i == |es| then []
    else Edited(es, ms, i + 1) +
         (if !es[i].valid || ms[i].valid == Some(false) then []
          else if ms[i].payload.Some? then [ms[i].payload.value] else [es[i].payload])
  }

  /** The payload pushed this cycle, if any. */
  function Pushed<T>(es: seq<Slot<T>>, ms: seq<Edit<T>>): seq<T>
    requires |ms| == |es|
  {
    var top := NextTopAddress(es);
    if top >= 0 && ms[top].valid == Some(true) && ms[top].payload.Some? then [ms[top].payload.value] else []
  }

  /** The protocol: edits target valid entries; only the top address may be pushed to. */
  ghost predicate Legal<T>(es: seq<Slot<T>>, ms: seq<Edit<T>>) {
    && |ms| == |es|
    && forall i :: 0 <= i < |es| && !es[i].valid ==>
         || ms[i] == NoEdit()
         || (i == NextTopAddress(es) && ms[i].valid == Some(true) && ms[i].payload.Some?)
  }

  lemma {:induction false} CarryAbove<T>(es: seq<Slot<T>>, i: nat, j: nat)
    requires i <= j < |es| && !es[j].valid
    ensures Carry(es, i)
    decreases j - i
  {
    if i < j { CarryAbove(es, i + 1, j); }
  }

  /** Addresses that hold nothing add nothing to the list. */
  lemma {:induction false} SkipHoles<T>(es: seq<Slot<T>>, i: nat, j: nat)
    requires i <= j <= |es| && forall k :: i <= k < j ==> !es[k].valid
    ensures Aged(es, i) == Aged(es, j) && (forall ms :: |ms| == |es| ==> Edited(es, ms, i) == Edited(es, ms, j))
    decreases j - i
  {
    if i < j { SkipHoles(es, i + 1, j); }
  }

  /** Above the top address, the entries after the edge are the edited ones; those with a hole at their
      own address or above have moved one place up. */
  lemma {:induction false} UpperPart<T>(es: seq<Slot<T>>, ms: seq<Edit<T>>, i: nat)
    requires Legal(es, ms) && NextTopAddress(es) < i <= |es|
    ensures Aged(Next(es, ms), if Carry(es, i) then i + 1 else i) == Edited(es, ms, i)
    decreases |es| - i
  {
    if i < |es| {
      UpperPart(es, ms, i + 1);
    }
  }

  /** Where the pushed entry lands. */
  function Landing<T>(es: seq<Slot<T>>): int {
    var top := NextTopAddress(es);
    if Carry(es, top + 1) then top + 1 else top
  }

  /** At and below the landing address there is the pushed entry and nothing else. */
  lemma LowerPart<T>(es: seq<Slot<T>>, ms: seq<Edit<T>>, t: nat)
    requires Legal(es, ms) && t < |es| && t <= Landing(es)
    ensures var s := Next(es, ms)[t];
            if t == Landing(es) && Pushed(es, ms) != []
            then s.valid && [s.payload] == Pushed(es, ms) else !s.valid
  {
    var top := NextTopAddress(es);
    if t < top { CarryAbove(es, t + 1, top); }
    if t <= top { CarryAbove(es, t, top); }
  }

  /** One clock edge turns the age-ordered list into the same list with the edits applied to its elements
      (an element edited to be invalid disappears) and the pushed payload appended. */
  lemma EdgeRefinesList<T>(es: seq<Slot<T>>, ms: seq<Edit<T>>)
    requires Legal(es, ms)
    ensures Aged(Next(es, ms), 0) == Edited(es, ms, 0) + Pushed(es, ms)
  {
    var top := NextTopAddress(es);
    UpperPart(es, ms, top + 1);
    SkipHoles(es, 0, top + 1);
    LowerList(es, ms);
  }

  /** The pushed entry is the youngest of the list after the edge. */
  lemma LowerList<T>(es: seq<Slot<T>>, ms: seq<Edit<T>>)
    requires Legal(es, ms)
    ensures var es', at := Next(es, ms), Landing(es);
            -1 <= at < |es| && Aged(es', 0) == Aged(es', at + 1) + Pushed(es, ms)
  {
    var es', at := Next(es, ms), Landing(es);
    if at >= 0 {
      forall t | 0 <= t < at ensures !es'[t].valid { LowerPart(es, ms, t); }
      LowerPart(es, ms, at);
      SkipHoles(es', 0, at);
    }
  }

  // ---- Packing --------------------------------------------------------------------------------------

  /** The entries at address i and above that are not valid. */
  function HolesFrom<T>(es: seq<Slot<T>>, i: nat): nat
    requires i <= |es|
    decreases |es| - i
  {
    if i == |es| then 0 else HolesFrom(es, i + 1) + (if es[i].valid then 0 else 1)
  }

  /** The holes above the lowest valid entry. */
  function Holes<T>(es: seq<Slot<T>>): nat {
    HolesFrom(es, NextTopAddress(es) + 1)
  }

  ghost predicate EditFree<T>(es: seq<Slot<T>>, ms: seq<Edit<T>>) {
    |ms| == |es| && forall i :: 0 <= i < |es| ==> ms[i] == NoEdit()
  }

  lemma {:induction false} HolesAndEntries<T>(es: seq<Slot<T>>, i: nat)
    requires i <= |es|
    ensures HolesFrom(es, i) + |Aged(es, i)| == |es| - i
    ensures HolesFrom(es, i) > 0 <==> Carry(es, i)
    decreases |es| - i
  {
    if i < |es| { HolesAndEntries(es, i + 1); }
  }

  lemma {:induction false} NothingEdited<T>(es: seq<Slot<T>>, ms: seq<Edit<T>>, i: nat)
    requires EditFree(es, ms) && i <= |es|
    ensures Edited(es, ms, i) == Aged(es, i)
    decreases |es| - i
  {
    if i < |es| { NothingEdited(es, ms, i + 1); }
  }

  /** Without edits a clock edge keeps the list, and lowers the holes above the lowest valid entry by
      exactly one as long as there are any. */
  lemma EdgePacks<T>(es: seq<Slot<T>>, ms: seq<Edit<T>>)
    requires EditFree(es, ms)
    ensures Aged(Next(es, ms), 0) == Aged(es, 0)
    ensures Holes(Next(es, ms)) == if Holes(es) == 0 then 0 else Holes(es) - 1
  {
    EdgeRefinesList(es, ms);
    NothingEdited(es, ms, 0);
    CountHoles(es);
    CountHoles(Next(es, ms));
    NextTopIs(es, ms);
  }

  /** The top address, the holes above it and the list add up to the size. */
  lemma CountHoles<T>(es: seq<Slot<T>>)
    ensures NextTopAddress(es) + 1 + Holes(es) + |Aged(es, 0)| == |es|
    ensures Holes(es) > 0 <==> Carry(es, NextTopAddress(es) + 1)
  {
    HolesAndEntries(es, NextTopAddress(es) + 1);
    SkipHoles(es, 0, NextTopAddress(es) + 1);
  }

  /** Without edits the lowest valid entry moves up exactly when there is a hole above it. */
  lemma NextTopIs<T>(es: seq<Slot<T>>, ms: seq<Edit<T>>)
    requires EditFree(es, ms)
    ensures Landing(es) < |es| && NextTopAddress(Next(es, ms)) == Landing(es)
  {
    var es', top, at := Next(es, ms), NextTopAddress(es), Landing(es);
    forall t | 0 <= t < |es| && t <= at ensures !es'[t].valid { LowerPart(es, ms, t); }
    if at + 1 < |es| {
      assert es'[at + 1].valid;
    }
  }

  function Edges<T>(es: seq<Slot<T>>, k: nat): (r: seq<Slot<T>>)
    ensures |r| == |es|
  {
    if k == 0 then es
    else
      var before := Edges(es, k - 1);
      Next(before, seq(|before|, i => NoEdit()))
  }

  /** As many edit-free edges as there are holes pack the memory, and the list stays what it was. */
  lemma {:induction false} EdgesPack<T>(es: seq<Slot<T>>, k: nat)
    ensures Aged(Edges(es, k), 0) == Aged(es, 0)
    ensures Holes(Edges(es, k)) == if k <= Holes(es) then Holes(es) - k else 0
  {
    if k > 0 {
      EdgesPack(es, k - 1);
      var before := Edges(es, k - 1);
      EdgePacks(before, seq(|before|, i => NoEdit()));
    }
  }

  /** The entries during the pass of a clock edge, when it has reached address i from above. */
  ghost predicate Passed<T>(now: seq<Slot<T>>, es: seq<Slot<T>>, ms: seq<Edit<T>>, i: nat)
    requires |ms| == |es| == |now| && i <= |es|
  {
    && (forall t :: 0 <= t < i ==> now[t] == es[t])
    && (i < |es| ==> now[i] == Vacated(es, ms, i))
    && (forall t :: i < t < |es| ==> now[t] == NextSlot(es, ms, t))
  }

  /** What the pass does at address i, moving up (`unit`) or not. */
  function Shifted<T>(now: seq<Slot<T>>, ms: seq<Edit<T>>, i: nat, unit: bool): (r: seq<Slot<T>>)
    requires i < |now| == |ms| && (unit ==> i + 1 < |now|)
    ensures |r| == |now|
  {
    if unit then now[i := now[i].(valid := false)][i + 1 := ms[i].Apply(if now[i].valid then now[i] else now[i + 1])]
    else now[i := ms[i].Apply(now[i])]
  }

  lemma PassStep<T>(now: seq<Slot<T>>, es: seq<Slot<T>>, ms: seq<Edit<T>>, i: nat)
    requires |ms| == |es| == |now| && i < |es| && Passed(now, es, ms, i + 1)
    requires Carry(es, i + 1) ==> i + 1 < |es|
    ensures Passed(Shifted(now, ms, i, Carry(es, i + 1)), es, ms, i)
  {
  }

  // ---- The memory ---------------------------------------------------------------------------------

  class CompressingMemory<T(0)> {
    const entries: array<Slot<T>>
    const modification: array<Edit<T>>

    ghost predicate Valid() {
      modification.Length == entries.Length
    }

    constructor (size: nat, empty: T)
      ensures Valid() && entries.Length == size && fresh(entries) && fresh(modification)
      ensures Aged(entries[..], 0) == [] && EditFree(entries[..], modification[..])
    {
      entries := new Slot<T>[size](i => Slot(empty, false));
      modification := new Edit<T>[size](i => NoEdit());
      new;
      SkipHoles(entries[..], 0, size);
    }

    method NextTopAddress() returns (addr: int)
      ensures addr == TopBelow(entries[..], 0)
    {
      addr := -1;
      for i := 0 to entries.Length
        invariant addr == i - 1 && TopBelow(entries[..], 0) == TopBelow(entries[..], i)
      {
        if entries[i].valid { return; }
        addr := i;
      }
    }

    method SetPayload(address: nat, payload: T)
      requires Valid() && address < entries.Length
      modifies modification
      ensures modification[..] ==
                old(modification[..][address := modification[address].(payload := Some(payload))])
    {
      modification[address] := modification[address].(payload := Some(payload));
    }

    method SetValid(address: nat, valid: bool)
      requires Valid() && address < entries.Length
      modifies modification
      ensures modification[..] == old(modification[..])[address := old(modification[address]).(valid := Some(valid))]
    {
      modification[address] := modification[address].(valid := Some(valid));
    }

    method ResetInput()
      requires Valid()
      modifies modification
      ensures forall i :: 0 <= i < modification.Length ==> modification[i] == NoEdit()
    {
      for i := 0 to modification.Length
        invariant forall j :: 0 <= j < i ==> modification[j] == NoEdit()
      {
        modification[i] := NoEdit();
      }
    }

    /** Moves the entry at address i up, or edits it where it is. */
    method Shift(i: nat, unit: bool)
      requires Valid() && i < entries.Length && (unit ==> i + 1 < entries.Length)
      modifies entries
      ensures entries[..] == Shifted(old(entries[..]), modification[..], i, unit)
    {
      if unit {
        if entries[i].valid {
          entries[i + 1] := entries[i];
        }
        entries[i + 1] := modification[i].Apply(entries[i + 1]);
        entries[i] := entries[i].(valid := false);
      } else {
        entries[i] := modification[i].Apply(entries[i]);
      }
    }

    /** Shifts in one pass from the top address down, with the staged edits following their entries. */
    method Eval()
      requires Valid()
      modifies entries, modification
      ensures Valid() && entries[..] == Next(old(entries[..]), old(modification[..]))
      ensures EditFree(entries[..], modification[..])
    {
      ghost var es, ms := entries[..], modification[..];
      var size := entries.Length;
      var carrier := new bool[size + 1](i => false);
      for i := size downto 0
        invariant modification[..] == ms && Passed(entries[..], es, ms, i)
        invariant forall j :: i <= j <= size ==> carrier[j] == Carry(es, j)
      {
        ghost var before := entries[..];
        assert before[i] == es[i] && (Carry(es, i + 1) ==> i + 1 < |es|);
        PassStep(before, es, ms, i);
        carrier[i] := carrier[i + 1] || !entries[i].valid;
        var unit := carrier[i + 1];
        Shift(i, unit);
      }
      assert entries[..] == Next(es, ms);
      ResetInput();
    }
  }
}
