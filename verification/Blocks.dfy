/** Who owns the heap blocks: ring slots, the staging pointer, or nobody because they were freed. */
module Blocks {
  import opened Prelude
  import opened Rings
  import opened CircularBuffers

  type Block = array<byte>

  /** A block that kmalloc returned and that has not been freed. */
  ghost predicate Holds(p: Block, issued: set<Block>, freed: set<Block>)
  {
    p in issued && p !in freed && p.Length == KMALLOC_MAX_SIZE
  }

  ghost predicate InSlot(slots: seq<Entry>, p: Block)
  {
    exists i :: 0 <= i < |slots| && slots[i].buffptr == p
  }

  /** No block has two owners, no owner points to a freed block, and every block without an owner has
      been freed: issued is the disjoint union of freed, the slots' blocks and the staging block. */
  ghost predicate Owned(slots: seq<Entry>, stage: array?<byte>, issued: set<Block>, freed: set<Block>)
  {
    && freed <= issued
    && (forall i :: 0 <= i < |slots| && slots[i].buffptr != null ==> Holds(slots[i].buffptr, issued, freed))
    && (forall i, j :: 0 <= i < j < |slots| && slots[i].buffptr != null ==> slots[i].buffptr != slots[j].buffptr)
    && (stage != null ==> Holds(stage, issued, freed) && !InSlot(slots, stage))
    && (forall p <- issued :: p in freed || p == stage || InSlot(slots, p))
  }

  /** Every live slot has a block, and its size is within it. */
  ghost predicate Filled(r: Ring<Entry>)
    requires |r.slots| == CAPACITY
  {
    forall i :: 0 <= i < CAPACITY && r.Live(i) ==> r.slots[i].buffptr != null && r.slots[i].size <= KMALLOC_MAX_SIZE
  }

  ghost function Freeable(p: array?<byte>): set<Block>
  {
    if p == null then {} else {p}
  }

  /** A fresh block becomes the staging block. */
  lemma StageFresh(slots: seq<Entry>, p: Block, issued: set<Block>, freed: set<Block>)
    requires Owned(slots, null, issued, freed)
    requires p !in issued && p.Length == KMALLOC_MAX_SIZE
    ensures Owned(slots, p, issued + {p}, freed)
  {
  }

  /** The ring and its blocks, apart from what the blocks contain. */
  ghost predicate Sane(r: Ring<Entry>, stage: array?<byte>, issued: set<Block>, freed: set<Block>)
  {
    r.Valid(BLANK) && Filled(r) && Owned(r.slots, stage, issued, freed)
  }

  /** Committing hands the staging block to the ring and frees the block of the entry dropped for it. */
  lemma CommitTransfersBlock(r: Ring<Entry>, stage: Block, size: nat, issued: set<Block>, freed: set<Block>)
    requires Sane(r, stage, issued, freed) && size <= KMALLOC_MAX_SIZE
    ensures var dropped := if r.full then r.Queue()[0].buffptr else null;
            && (dropped != null ==> Holds(dropped, issued, freed))
            && Sane(r.Add(Entry(stage, size)), null, issued, freed + Freeable(dropped))
    ensures r.Add(Entry(stage, size)).Queue() == Push(r.Queue(), Entry(stage, size))
  {
    hide Ring<Entry>.Queue, Push;
    var e := Entry(stage, size);
    AddRefinesPush(r, e, BLANK);
    var slots, more := r.Add(e).slots, freed + Freeable(r.slots[r.inOffs].buffptr);
    assert slots == r.slots[r.inOffs := e];
    forall p <- issued
      ensures p in more || InSlot(slots, p)
    {
      if p == stage {
        assert slots[r.inOffs].buffptr == p;
      } else if p !in more {
        var i :| 0 <= i < CAPACITY && r.slots[i].buffptr == p;
        assert slots[i].buffptr == p;
      }
    }
  }

  /** Every entry of the queue is in some live slot. */
  lemma QueueSlot(r: Ring<Entry>, k: nat)
    requires r.Valid(BLANK) && k < r.Count()
    ensures exists i :: 0 <= i < CAPACITY && r.Live(i) && r.slots[i] == r.Queue()[k]
  {
    if r.full {
      FullQueue(r, BLANK);
      var i := if r.inOffs + k < CAPACITY then r.inOffs + k else r.inOffs + k - CAPACITY;
      assert r.Live(i) && r.slots[i] == r.Queue()[k];
    } else {
      PartQueue(r, BLANK);
      assert r.Live(k) && r.slots[k] == r.Queue()[k];
    }
  }

  /** Every entry of the queue has a block of its own, which is not the staging block. */
  lemma QueueBlocks(r: Ring<Entry>, stage: array?<byte>, issued: set<Block>, freed: set<Block>)
    requires Sane(r, stage, issued, freed)
    ensures forall k :: 0 <= k < r.Count() ==>
              && r.Queue()[k].buffptr != null && r.Queue()[k].buffptr in issued && r.Queue()[k].buffptr != stage
              && r.Queue()[k].size <= KMALLOC_MAX_SIZE == r.Queue()[k].buffptr.Length
    ensures stage != null ==> stage.Length == KMALLOC_MAX_SIZE
  {
    forall k | 0 <= k < r.Count()
      ensures r.Queue()[k].buffptr != null && Holds(r.Queue()[k].buffptr, issued, freed)
      ensures r.Queue()[k].size <= KMALLOC_MAX_SIZE && r.Queue()[k].buffptr != stage
    {
      QueueSlot(r, k);
    }
  }

  ghost predicate Readable(q: seq<Entry>)
  {
    forall k :: 0 <= k < |q| ==> q[k].buffptr != null && q[k].size <= q[k].buffptr.Length
  }

  /** The bytes of each entry. */
  ghost function Contents(q: seq<Entry>): (r: seq<seq<byte>>)
    requires Readable(q)
    reads set k | 0 <= k < |q| :: q[k].buffptr
    ensures |r| == |q|
  {
    if q == [] then [] else [q[0].buffptr[..q[0].size]] + Contents(q[1..])
  }

  lemma {:induction false} ContentsAt(q: seq<Entry>, k: nat)
    requires Readable(q) && k < |q|
    ensures Contents(q)[k] == q[k].buffptr[..q[k].size]
  {
    if k > 0 { ContentsAt(q[1..], k - 1); }
  }

  lemma {:induction false} ContentsSnoc(q: seq<Entry>, e: Entry)
    requires Readable(q) && e.buffptr != null && e.size <= e.buffptr.Length
    ensures Contents(q + [e]) == Contents(q) + [e.buffptr[..e.size]]
  {
    if q == [] {
      assert q + [e] == [e];
    } else {
      ContentsSnoc(q[1..], e);
      assert (q + [e])[1..] == q[1..] + [e];
    }
  }

  lemma ContentsPush(q: seq<Entry>, e: Entry)
    requires Readable(q) && e.buffptr != null && e.size <= e.buffptr.Length
    ensures Contents(Push(q, e)) == Push(Contents(q), e.buffptr[..e.size])
  {
    ContentsSnoc(if |q| == CAPACITY then q[1..] else q, e);
  }
}
