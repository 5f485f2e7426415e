/** The ring's fields as a value, and the bounded queue of entries it stands for. */
module Rings {

  /** AESDCHAR_MAX_WRITE_OPERATIONS_SUPPORTED. */
  const CAPACITY := 10

  /** A queue that holds CAPACITY elements: the oldest is dropped when it is already full. */
  function Push<T>(q: seq<T>, x: T): seq<T>
  {
    (if |q| == CAPACITY then q[1..] else q) + [x]
  }

  /** The element that Push drops, if any. */
  function Dropped<T>(q: seq<T>): seq<T>
  {
    if |q| == CAPACITY then [q[0]] else []
  }

  /** The last n elements, or all if there are fewer. */
  function Last<T>(h: seq<T>, n: nat): (l: seq<T>)
    ensures |l| <= n
  {
    if |h| <= n then h else h[|h| - n..]
  }

  /** The last CAPACITY elements of a history. */
  function Window<T>(h: seq<T>): seq<T> { Last(h, CAPACITY) }

  function PushAll<T>(q: seq<T>, xs: seq<T>): seq<T>
  {
    if xs == [] then q else Push(PushAll(q, xs[..|xs| - 1]), xs[|xs| - 1])
  }

  /** Pushing onto the window of a history gives the window of the longer history. */
  lemma WindowPush<T>(h: seq<T>, x: T)
    ensures Push(Window(h), x) == Window(h + [x])
  {
  }

  /** Over any run of pushes from the empty queue, exactly the last CAPACITY elements are left. */
  lemma {:induction false} PushAllIsWindow<T>(xs: seq<T>)
    ensures PushAll([], xs) == Window(xs)
  {
    if xs != [] {
      PushAllIsWindow(xs[..|xs| - 1]);
      WindowPush(xs[..|xs| - 1], xs[|xs| - 1]);
      assert xs[..|xs| - 1] + [xs[|xs| - 1]] == xs;
    }
  }

  datatype Ring<E> = Ring(slots: seq<E>, inOffs: nat, outOffs: nat, full: bool) {

    /** The offsets are in range and tied to the full flag. Slots never written are still blank. */
    ghost predicate Valid(blank: E)
    {
      && |slots| == CAPACITY
      && inOffs < CAPACITY && outOffs < CAPACITY
      && (full ==> inOffs == outOffs)
      && (!full ==> outOffs == 0)
      && (forall i :: 0 <= i < CAPACITY && !Live(i) ==> slots[i] == blank)
    }

    /** Physical slot i holds an entry. */
    predicate Live(i: nat) { full || i < inOffs }

    function Count(): nat { if full then CAPACITY else inOffs }

    /** All slots in reading order. */
    function Rotated(): seq<E>
      requires outOffs <= |slots|
    {
      slots[outOffs..] + slots[..outOffs]
    }

    /** The entries from oldest to newest. */
    function Queue(): (q: seq<E>)
      requires |slots| == CAPACITY && inOffs <= CAPACITY && outOffs <= CAPACITY
      ensures |q| == Count()
    {
      Rotated()[..Count()]
    }

    /** The three assignments of an insertion, in program order. */
    function StoreSlot(e: E): Ring<E>
      requires inOffs < |slots|
    {
      this.(slots := slots[inOffs := e])
    }

    function Advance(): Ring<E>
    {
      this.(inOffs := if inOffs + 1 == CAPACITY then 0 else inOffs + 1)
    }

    function Settle(): Ring<E>
    {
      if full then this.(outOffs := inOffs) else this.(full := inOffs == outOffs)
    }

    function Add(e: E): Ring<E>
      requires inOffs < |slots|
    {
      StoreSlot(e).Advance().Settle()
    }
  }

  function Empty<E>(blank: E): Ring<E>
  {
    Ring(seq(CAPACITY, _ => blank), 0, 0, false)
  }

  /** An index reduced modulo the capacity. */
  function Wrap(k: nat): (r: nat)
    ensures r < CAPACITY && r == k % CAPACITY
  {
    if k < CAPACITY then k else k % CAPACITY
  }

  /** Counting on from outOffs, modulo the capacity, is counting in reading order. */
  lemma VirtualOffset<E>(r: Ring<E>, k: nat, blank: E)
    requires r.Valid(blank)
    ensures r.slots[(r.outOffs + k) % CAPACITY] == r.Rotated()[Wrap(k)]
  {
    hide Ring<E>.Rotated, Wrap;
    WrapsOnce(r.outOffs, k);
    RotatedAt(r, Wrap(k));
  }

  lemma WrapsOnce(offs: nat, k: nat)
    requires offs < CAPACITY
    ensures (offs + k) % CAPACITY == if offs + Wrap(k) < CAPACITY then offs + Wrap(k) else offs + Wrap(k) - CAPACITY
  {
  }

  lemma RotatedAt<E>(r: Ring<E>, j: nat)
    requires |r.slots| == CAPACITY && r.outOffs < CAPACITY && j < CAPACITY
    ensures r.Rotated()[j] == r.slots[if r.outOffs + j < CAPACITY then r.outOffs + j else r.outOffs + j - CAPACITY]
  {
  }

  /** Past the last entry the slots in reading order are blank. */
  lemma BlankTail<E>(r: Ring<E>, k: nat, blank: E)
    requires r.Valid(blank) && k < CAPACITY
    ensures r.Rotated()[k] == if k < r.Count() then r.Queue()[k] else blank
  {
    if !r.full { assert r.Rotated() == r.slots; }
  }

  /** A full ring starts at the slot that is written next. */
  lemma FullQueue<E>(r: Ring<E>, blank: E)
    requires r.Valid(blank) && r.full
    ensures r.Queue() == r.slots[r.inOffs..] + r.slots[..r.inOffs]
  {
  }

  lemma PartQueue<E>(r: Ring<E>, blank: E)
    requires r.Valid(blank) && !r.full
    ensures r.Queue() == r.slots[..r.inOffs]
  {
    assert r.Rotated() == r.slots;
  }

  lemma AddValid<E>(r: Ring<E>, e: E, blank: E)
    requires r.Valid(blank)
    ensures r.Add(e).Valid(blank)
  {
  }

  /** The oldest entry lies where the new one goes. */
  lemma AddToFull<E>(r: Ring<E>, e: E, blank: E)
    requires r.Valid(blank) && r.full
    ensures r.Add(e).Queue() == Push(r.Queue(), e) && r.slots[r.inOffs] == r.Queue()[0]
  {
    AddValid(r, e, blank);
    FullQueue(r, blank);
    FullQueue(r.Add(e), blank);
    hide Ring<E>.Queue;
    var i := r.inOffs;
    assert r.Queue()[1..] == r.slots[i + 1..] + r.slots[..i];
    assert r.Add(e).slots == r.slots[..i] + [e] + r.slots[i + 1..];
    assert r.Add(e).Queue() == r.slots[i + 1..] + r.slots[..i] + [e];
  }

  /** The new one goes after the last, and fills the ring if that was the last slot. */
  lemma AddToPart<E>(r: Ring<E>, e: E, blank: E)
    requires r.Valid(blank) && !r.full
    ensures r.Add(e).Queue() == Push(r.Queue(), e) && r.slots[r.inOffs] == blank
  {
    AddValid(r, e, blank);
    PartQueue(r, blank);
    if r.Add(e).full { FullQueue(r.Add(e), blank); } else { PartQueue(r.Add(e), blank); }
    hide Ring<E>.Queue;
    assert r.Add(e).slots == r.slots[..r.inOffs] + [e] + r.slots[r.inOffs + 1..];
  }

  /** An insertion keeps the ring valid, pushes onto the queue, and overwrites exactly the slot of
      the entry that the push drops (a blank slot when nothing is dropped). */
  lemma AddRefinesPush<E>(r: Ring<E>, e: E, blank: E)
    requires r.Valid(blank)
    ensures r.Add(e).Valid(blank)
    ensures r.Add(e).Queue() == Push(r.Queue(), e)
    ensures r.slots[r.inOffs] == if r.full then r.Queue()[0] else blank
  {
    AddValid(r, e, blank);
    hide Ring<E>.Valid, Push;
    if r.full {
      AddToFull(r, e, blank);
    } else {
      AddToPart(r, e, blank);
    }
  }

  function AddAll<E>(r: Ring<E>, es: seq<E>): Ring<E>
    requires |r.slots| == CAPACITY && r.inOffs < CAPACITY
    ensures |AddAll(r, es).slots| == CAPACITY && AddAll(r, es).inOffs < CAPACITY
  {
    if es == [] then r else AddAll(r, es[..|es| - 1]).Add(es[|es| - 1])
  }

  /** Refinement over all runs: after any insertions into an empty ring the ring is valid and reads,
      oldest first, as the last CAPACITY entries inserted. */
  lemma {:induction false} RingRefinesBoundedQueue<E>(es: seq<E>, blank: E)
    ensures AddAll(Empty(blank), es).Valid(blank)
    ensures AddAll(Empty(blank), es).Queue() == Window(es)
  {
    if es == [] {
      assert Empty(blank).Queue() == [];
    } else {
      var most := es[..|es| - 1];
      RingRefinesBoundedQueue(most, blank);
      AddRefinesPush(AddAll(Empty(blank), most), es[|es| - 1], blank);
      WindowPush(most, es[|es| - 1]);
      assert most + [es[|es| - 1]] == es;
    }
  }
}
