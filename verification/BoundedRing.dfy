/**
  The ring buffer of pthread/concurrent_array.cpp: a circular array of pointers in which fullness and
  emptiness are decided from the two indices and the null-ness of slot 0 alone.

  The first half gives the ring as a value, the second half as the mutable class; the class is proved
  to do exactly what the value functions do and, through them, to be a bounded first-in first-out queue.
 */
module BoundedRing {
  import opened Wrappers

  /** A slot: a null pointer or a pointer to an item. */
  datatype Cell = Null | Ptr(item: int)

  datatype RawRing = RawRing(buff: seq<Cell>, pindex: nat, cindex: nat)

  type Ring = r: RawRing | r.pindex < |r.buff| && r.cindex < |r.buff| witness RawRing([Null], 0, 0)

  predicate IsFull(r: Ring) {
    r.pindex == r.cindex && r.buff[0] != Null
  }

  predicate IsEmpty(r: Ring) {
    r.pindex == r.cindex && r.buff[0] == Null
  }

  /** The critical section of append after its wait loop; None is the failing empty-slot assert. */
  function Store(r: Ring, item: int): Option<Ring> {
    if r.buff[r.pindex] != Null then None
    else Some(RawRing(r.buff[r.pindex := Ptr(item)], (r.pindex + 1) % |r.buff|, r.cindex))
  }

  /** The critical section of get after its wait loop: the new ring and the pointer handed out. */
  function Take(r: Ring): (Ring, Cell) {
    (RawRing(r.buff[r.cindex := Null], r.pindex, (r.cindex + 1) % |r.buff|), r.buff[r.cindex])
  }

  function Empty(size: nat): Ring
    requires size >= 1
  {
    RawRing(seq(size, _ => Null), 0, 0)
  }

  /** The k-th slot counted from the consumer index, wrapping around once. */
  function Slot(r: Ring, k: nat): nat {
    if r.cindex + k < |r.buff| then r.cindex + k else r.cindex + k - |r.buff|
  }

  /** The ring represents the queue q: its items fill the slots from cindex on, and all other slots are null. */
  ghost predicate Holds(r: Ring, q: seq<int>) {
    && |q| <= |r.buff|
    && r.pindex == Slot(r, |q|)
    && (forall k :: 0 <= k < |q| ==> r.buff[Slot(r, k)] == Ptr(q[k]))
    && (forall k :: |q| <= k < |r.buff| ==> r.buff[Slot(r, k)] == Null)
  }

  lemma Successor(i: nat, n: nat)
    requires i < n
    ensures (i + 1) % n == if i + 1 == n then 0 else i + 1
  {
  }

  /** Looking at slot 0 only is enough: full means size items, empty means none. */
  lemma FullAndEmptyAreExact(r: Ring, q: seq<int>)
    requires Holds(r, q)
    ensures IsFull(r) <==> |q| == |r.buff|
    ensures IsEmpty(r) <==> q == []
  {
    var k := if r.cindex == 0 then 0 else |r.buff| - r.cindex;
    assert Slot(r, k) == 0;
    assert r.buff[0] == Null <==> |q| <= k;
  }

  /** A ring represents one queue only. */
  lemma HoldsIsFunctional(r: Ring, q: seq<int>, q': seq<int>)
    requires Holds(r, q) && Holds(r, q')
    ensures q == q'
  {
  }

  /** On a ring that is not full the empty-slot assert passes and the item joins the back of the queue. */
  lemma StoreEnqueues(r: Ring, q: seq<int>, item: int)
    requires Holds(r, q) && |q| < |r.buff|
    ensures Store(r, item).Some? && Holds(Store(r, item).value, q + [item])
  {
    assert r.buff[Slot(r, |q|)] == Null;
    Successor(r.pindex, |r.buff|);
    var r' := Store(r, item).value;
    forall k | 0 <= k < |r.buff|
      ensures Slot(r', k) == Slot(r, k) && (Slot(r, k) == r.pindex <==> k == |q|)
    {
    }
  }

  /** On a ring that is not empty the pointer handed out is the front of the queue. */
  lemma TakeDequeues(r: Ring, q: seq<int>)
    requires Holds(r, q) && q != []
    ensures Take(r).1 == Ptr(q[0]) && Holds(Take(r).0, q[1..])
  {
    assert Slot(r, 0) == r.cindex;
    Successor(r.cindex, |r.buff|);
    var r' := Take(r).0;
    forall k | 0 <= k < |r.buff|
      ensures Slot(r', k) == if k + 1 == |r.buff| then r.cindex else Slot(r, k + 1)
    {
    }
    forall k | 0 <= k < |q| - 1
      ensures r'.buff[Slot(r', k)] == Ptr(q[1..][k])
    {
      assert r.buff[Slot(r, k + 1)] == Ptr(q[k + 1]);
    }
    forall k | |q| - 1 <= k < |r.buff|
      ensures r'.buff[Slot(r', k)] == Null
    {
      if k + 1 < |r.buff| {
        assert r.buff[Slot(r, k + 1)] == Null;
      }
    }
  }

  /** The empty-slot assert fires exactly on a full ring, and a null pointer is handed out exactly by an empty one. */
  lemma GuardsAreNeeded(r: Ring, q: seq<int>, item: int)
    requires Holds(r, q)
    ensures Store(r, item).None? <==> |q| == |r.buff|
    ensures Take(r).1 == Null <==> q == []
  {
    assert Slot(r, 0) == r.cindex;
    if q == [] {
      assert r.buff[Slot(r, 0)] == Null;
    }
    if |q| < |r.buff| {
      StoreEnqueues(r, q, item);
    } else {
      assert Slot(r, 0) == r.pindex;
    }
  }

  lemma EmptyHoldsNothing(size: nat)
    requires size >= 1
    ensures Holds(Empty(size), [])
  {
  }

  /** What one pass through append or get leads to. */
  datatype AppendOutcome = Rejected | AppendMustWait | Stored(pos: nat)
  datatype GetOutcome = GetMustWait | Got(cell: Cell)

  /**
    The class itself. Append and Get are one pass through the locked section: an outcome MustWait is the
    branch into pthread_cond_wait, which leaves the ring as it was.
   */
  class ConcurrentArray {
    var buff: array<Cell>
    var pindex: nat
    var cindex: nat
    ghost var Contents: seq<int>

    ghost predicate Valid()
      reads this, buff
    {
      && pindex < buff.Length
      && cindex < buff.Length
      && Holds(View(), Contents)
    }

    ghost function View(): Ring
      reads this, buff
      requires pindex < buff.Length && cindex < buff.Length
    {
      RawRing(buff[..], pindex, cindex)
    }

    constructor (size: nat)
      requires size >= 1
      ensures Valid() && fresh(buff) && buff.Length == size
      ensures Contents == [] && View() == Empty(size)
    {
      buff := new Cell[size](_ => Null);
      pindex, cindex := 0, 0;
      Contents := [];
      new;
      EmptyHoldsNothing(size);
      assert View() == Empty(size);
    }

    method CheckFull() returns (full: bool)
      requires Valid()
      ensures full <==> |Contents| == buff.Length
    {
      full := pindex == cindex && buff[0] != Null;
      FullAndEmptyAreExact(View(), Contents);
      assert full <==> IsFull(View());
    }

    method CheckEmpty() returns (empty: bool)
      requires Valid()
      ensures empty <==> Contents == []
    {
      empty := pindex == cindex && buff[0] == Null;
      FullAndEmptyAreExact(View(), Contents);
      assert empty <==> IsEmpty(View());
    }

    method Append(t: Cell) returns (o: AppendOutcome)
      requires Valid()
      modifies this, buff
      ensures Valid() && buff == old(buff)
      ensures o.Rejected? <==> t == Null
      ensures o.AppendMustWait? <==> t != Null && |old(Contents)| == buff.Length
      ensures !o.Stored? ==> View() == old(View()) && Contents == old(Contents)
      ensures o.Stored? ==> o.pos == old(pindex) && Contents == old(Contents) + [t.item]
      ensures o.Stored? ==> Store(old(View()), t.item) == Some(View())
    {
      if t == Null {
        return Rejected;
      }
      var full := CheckFull();
      if full {
        return AppendMustWait;
      }
      StoreEnqueues(View(), Contents, t.item);
      var pos := pindex;
      assert buff[pos] == Null;
      buff[pos] := t;
      pindex := (pindex + 1) % buff.Length;
      Contents := Contents + [t.item];
      assert Store(old(View()), t.item) == Some(View());
      return Stored(pos);
    }

    method Get() returns (o: GetOutcome)
      requires Valid()
      modifies this, buff
      ensures Valid() && buff == old(buff)
      ensures o.GetMustWait? <==> old(Contents) == []
      ensures o.GetMustWait? ==> View() == old(View()) && Contents == old(Contents)
      ensures o.Got? ==> o.cell == Ptr(old(Contents)[0]) && Contents == old(Contents)[1..]
      ensures o.Got? ==> Take(old(View())) == (View(), o.cell)
    {
      var empty := CheckEmpty();
      if empty {
        return GetMustWait;
      }
      TakeDequeues(View(), Contents);
      var t := buff[cindex];
      buff[cindex] := Null;
      cindex := (cindex + 1) % buff.Length;
      Contents := Contents[1..];
      assert Take(old(View())) == (View(), t);
      return Got(t);
    }
  }
}
