/** The heap blocks behind the protocol's byte strings: which block each pointer holds while any number of
    threads interleave, and what the blocks contain. */
module ProtocolBlocks {
  import opened Prelude
  import opened Rings
  import opened Lines
  import opened Protocol
  import opened ProtocolSteps
  import opened ProtocolProofs
  import opened ProtocolTheorems
  import opened ProtocolCalls

  /** Blocks are numbered in the order kmalloc hands them out. */
  type Id = nat

  /** slots, stage: the pointers in the ring and in the stage. free: what add_entry returned to the thread that
      commits, until it is freed. memory: what has been written into each block. freed: in order. */
  datatype Heap = Heap(slots: seq<Option<Id>>, stage: Option<Id>, free: Option<Id>,
                       memory: seq<seq<byte>>, freed: seq<Id>)

  function NoBlocks(): Heap { Heap(seq(CAPACITY, _ => None), None, None, [], []) }

  /** StorePartial: a missing block is allocated, and the bytes go in after those already there. */
  function Store(p: Heap, bytes: seq<byte>): Heap
  {
    if p.stage.None? then p.(stage := Some(|p.memory|), memory := p.memory + [bytes])
    else if p.stage.value < |p.memory| then
      p.(memory := p.memory[p.stage.value := p.memory[p.stage.value] + bytes])
    else p
  }

  /** What the step that thread t takes does to pointers and blocks. */
  function NextHeap(g: System, t: Tid, c: Choice, p: Heap): Heap
    requires t < |g.threads|
  {
    match g.threads[t]
    case Scan(buf, base) =>
      if base >= |buf| || (p.stage.None? && c.NoBlock?) then p
      else Store(p, buf[base..SegmentEnd(buf, base)])
    case PutSlot(_, _) =>
      if g.ring.inOffs < |p.slots| then
        p.(free := p.slots[g.ring.inOffs], slots := p.slots[g.ring.inOffs := p.stage])
      else p
    case DropBlock(_, _, _) =>
      p.(freed := p.freed + (if p.free.Some? then [p.free.value] else []), free := None)
    case ClearPtr(_, _) => p.(stage := None)
    case _ => p
  }

  function ExecHeap(threads: seq<Thread>, sched: Schedule): Heap
  {
    if sched == [] then NoBlocks()
    else
      var most := sched[..|sched| - 1];
      var h := Exec(Start(threads), most);
      var (t, c) := sched[|sched| - 1];
      if t < |h.threads| && Next(h, t, c).Some? then NextHeap(h, t, c, ExecHeap(threads, most))
      else ExecHeap(threads, most)
  }

  /** A commit has put the staging block into the ring and not yet cleared the staging pointer. */
  predicate Handing(holder: Option<Thread>)
  {
    holder.Some? && (holder.value.MoveIn? || holder.value.FixOut? || holder.value.DropBlock? || holder.value.ClearPtr?)
  }

  /** It has not yet freed what it dropped either: the bytes of the entry dropped, if there was one. */
  function Dropping(holder: Option<Thread>): seq<byte>
  {
    match holder
    case Some(MoveIn(_, _, free, _)) => free
    case Some(FixOut(_, _, free, _)) => free
    case Some(DropBlock(_, _, free)) => free
    case _ => []
  }

  /** A pointer that is set points to a block that was handed out and is not free, and that holds these bytes. */
  ghost predicate PointsTo(ptr: Option<Id>, bytes: seq<byte>, p: Heap)
  {
    ptr.Some? ==> ptr.value < |p.memory| && ptr.value !in p.freed && p.memory[ptr.value] == bytes
  }

  /** Each slot has a block exactly if it holds an entry, no two slots the same one. */
  ghost predicate SlotsOk(slots: seq<seq<byte>>, p: Heap)
  {
    && |p.slots| == |slots|
    && (forall i :: 0 <= i < |slots| ==> (p.slots[i].Some? <==> slots[i] != []) && PointsTo(p.slots[i], slots[i], p))
    && (forall i, j :: 0 <= i < j < |slots| && p.slots[i].Some? ==> p.slots[i] != p.slots[j])
  }

  ghost predicate FreedOnce(freed: seq<Id>, issued: nat)
  {
    && (forall i :: 0 <= i < |freed| ==> freed[i] < issued)
    && (forall i, j :: 0 <= i < j < |freed| ==> freed[i] != freed[j])
  }

  /** Nothing is leaked. */
  ghost predicate AllFound(p: Heap)
  {
    forall id: Id :: id < |p.memory| ==>
                       id in p.freed || Some(id) in p.slots || p.stage == Some(id) || p.free == Some(id)
  }

  /** Who owns which block, given how far the holder of buffMutex has come. */
  ghost predicate HeapOk(holder: Option<Thread>, slots: seq<seq<byte>>, block: bool, staged: seq<byte>,
                         evicted: nat, p: Heap)
  {
    && SlotsOk(slots, p) && FreedOnce(p.freed, |p.memory|) && AllFound(p) && |p.freed| == evicted
    && (p.stage.Some? <==> block) && PointsTo(p.stage, staged, p)
    && (p.stage.Some? ==> (p.stage in p.slots <==> Handing(holder)))
    && (p.free.Some? <==> Dropping(holder) != []) && PointsTo(p.free, Dropping(holder), p)
    && (p.free.Some? ==> p.free !in p.slots && p.free != p.stage)
  }

  ghost predicate Heaped(g: System, p: Heap)
  {
    HeapOk(Holder(g, g.buffMutex), g.ring.slots, g.block, g.staged, |g.evicted|, p)
  }

  // ---- One lemma for each kind of step ----

  /** Storing into a block that no slot shares changes no slot. */
  lemma StoreKeeps(holder: Option<Thread>, slots: seq<seq<byte>>, block: bool, staged: seq<byte>, evicted: nat,
                   p: Heap, bytes: seq<byte>)
    requires HeapOk(holder, slots, block, staged, evicted, p) && !Handing(holder) && (!block ==> staged == [])
    ensures HeapOk(holder, slots, true, staged + bytes, evicted, Store(p, bytes))
  {
    var q := Store(p, bytes);
    if p.stage.None? {
      assert forall i :: 0 <= i < |p.slots| ==> p.slots[i] != q.stage;
    }
  }

  /** The staging block goes into a slot, and the block that was there is remembered. */
  lemma PutKeeps(was: Thread, th: Thread, slots: seq<seq<byte>>, staged: seq<byte>, evicted: nat, p: Heap, i: nat)
    requires was.PutSlot? && th.MoveIn? && i < |slots| && th.free == slots[i] && staged != []
    requires HeapOk(Some(was), slots, true, staged, evicted, p)
    ensures HeapOk(Some(th), slots[i := staged], true, staged, evicted,
                   p.(free := p.slots[i], slots := p.slots[i := p.stage]))
  {
    var q := p.(free := p.slots[i], slots := p.slots[i := p.stage]);
    assert q.slots[i] == q.stage;
    forall id: Id | id < |q.memory|
      ensures id in q.freed || Some(id) in q.slots || q.stage == Some(id) || q.free == Some(id)
    {
      if Some(id) in p.slots {
        var k :| 0 <= k < |p.slots| && p.slots[k] == Some(id);
        assert k != i ==> q.slots[k] == Some(id);
      }
    }
  }

  lemma DropKeeps(was: Thread, th: Thread, slots: seq<seq<byte>>, staged: seq<byte>, evicted: nat, p: Heap)
    requires was.DropBlock? && th.ClearPtr? && HeapOk(Some(was), slots, true, staged, evicted, p)
    ensures HeapOk(Some(th), slots, true, staged, if was.free == [] then evicted else evicted + 1,
                   p.(freed := p.freed + (if p.free.Some? then [p.free.value] else []), free := None))
  {
  }

  lemma ClearKeeps(was: Thread, th: Thread, slots: seq<seq<byte>>, staged: seq<byte>, evicted: nat, p: Heap)
    requires was.ClearPtr? && th.ClearEnd? && HeapOk(Some(was), slots, true, staged, evicted, p)
    ensures HeapOk(Some(th), slots, false, staged, evicted, p.(stage := None))
  {
  }

  /** Steps that move no block. */
  lemma PlainKeeps(was: Option<Thread>, holder: Option<Thread>, slots: seq<seq<byte>>, block: bool,
                   staged: seq<byte>, staged': seq<byte>, evicted: nat, p: Heap)
    requires HeapOk(was, slots, block, staged, evicted, p)
    requires Handing(holder) == Handing(was) && Dropping(holder) == Dropping(was) && (block ==> staged' == staged)
    ensures HeapOk(holder, slots, block, staged', evicted, p)
  {
  }

  /** Who holds buffMutex after a step of t. */
  lemma BuffHolder(g: System, t: Tid, c: Choice, h: System)
    requires Steps(g, t, c, h) && Inv(h)
    ensures |h.threads| == |g.threads|
    ensures Holder(h, h.buffMutex) == if HoldsBuff(h.threads[t]) then Some(h.threads[t])
                                      else if HoldsBuff(g.threads[t]) then None else Holder(g, g.buffMutex)
    ensures HoldsBuff(g.threads[t]) ==> Holder(g, g.buffMutex) == Some(g.threads[t])
    ensures HoldsEntry(g.threads[t]) ==> Holder(g, g.entryMutex) == Some(g.threads[t])
    ensures !HoldsBuff(g.threads[t]) && HoldsBuff(h.threads[t]) ==> Holder(g, g.buffMutex) == None
    ensures HoldsEntry(g.threads[t]) && !HoldsBuff(g.threads[t]) ==> !Handing(Holder(g, g.buffMutex))
  {
    StepModest(g, t, c, h);
    hide Next, SerialOk, OrderOk, StageOk, RingHeld, Explained;
    if h.buffMutex.Some? && h.buffMutex.value != t {
      assert h.threads[h.buffMutex.value] == g.threads[h.buffMutex.value];
    }
    if g.buffMutex.Some? && g.buffMutex.value != t {
      assert h.threads[g.buffMutex.value] == g.threads[g.buffMutex.value];
    }
  }

  /** A scan that stores, and one that does not. */
  lemma ScanFrame(g: System, t: Tid, c: Choice, h: System)
    requires t < |g.threads| && Next(g, t, c) == Some(h) && g.threads[t].Scan?
    ensures t < |h.threads| && !HoldsBuff(h.threads[t])
    ensures h.ring == g.ring && h.evicted == g.evicted
    ensures var (buf, base) := (g.threads[t].buf, g.threads[t].base);
            if base < |buf| && (g.block || !c.NoBlock?) then
              h.block && h.staged == g.staged + buf[base..SegmentEnd(buf, base)]
            else h.block == g.block && h.staged == g.staged
  {
    hide MissedAt, LineEnd;
  }

  lemma NothingStaged(g: System, t: Tid)
    requires Inv(g) && t < |g.threads| && g.threads[t].Scan?
    ensures !g.block ==> g.staged == []
  {
    hide SerialOk, OrderOk, RingHeld, Explained;
    assert HoldsEntry(g.threads[t]) <==> g.entryMutex == Some(t);
  }

  lemma ScanHeap(g: System, t: Tid, c: Choice, h: System, p: Heap)
    requires Steps(g, t, c, h) && Inv(h) && Heaped(g, p) && g.threads[t].Scan?
    ensures Heaped(h, NextHeap(g, t, c, p))
  {
    hide HeapOk, Inv, Next, LineEnd, Store;
    BuffHolder(g, t, c, h);
    ScanFrame(g, t, c, h);
    NothingStaged(g, t);
    var (buf, base) := (g.threads[t].buf, g.threads[t].base);
    var b := Holder(g, g.buffMutex);
    StageBlock(b, g.ring.slots, g.block, g.staged, |g.evicted|, p);
    if base < |buf| && (g.block || !c.NoBlock?) {
      StoreKeeps(b, g.ring.slots, g.block, g.staged, |g.evicted|, p, buf[base..SegmentEnd(buf, base)]);
    }
  }

  lemma StageBlock(holder: Option<Thread>, slots: seq<seq<byte>>, block: bool, staged: seq<byte>, evicted: nat, p: Heap)
    requires HeapOk(holder, slots, block, staged, evicted, p)
    ensures p.stage.Some? <==> block
    ensures |p.slots| == |slots|
  {
  }

  lemma ClearedBlock(g: System, t: Tid)
    requires Inv(g) && t < |g.threads| && g.threads[t].ClearEnd?
    ensures !g.block
  {
    assert Holder(g, g.entryMutex) == Some(g.threads[t]);
  }

  /** The three steps that hand the block over and free the one dropped for it. */
  lemma CommitHeap(g: System, t: Tid, c: Choice, h: System, p: Heap)
    requires Steps(g, t, c, h) && Inv(h) && Heaped(g, p)
    requires g.threads[t].PutSlot? || g.threads[t].DropBlock? || g.threads[t].ClearPtr?
    ensures Heaped(h, NextHeap(g, t, c, p))
  {
    hide HeapOk, SerialOk, OrderOk, RingHeld, Explained, Locks;
    BuffHolder(g, t, c, h);
    var (was, th) := (g.threads[t], h.threads[t]);
    StageBlock(Some(was), g.ring.slots, g.block, g.staged, |g.evicted|, p);
    match was {
      case PutSlot(_, _) => PutKeeps(was, th, g.ring.slots, g.staged, |g.evicted|, p, g.ring.inOffs);
      case DropBlock(_, _, _) => DropKeeps(was, th, g.ring.slots, g.staged, |g.evicted|, p);
      case ClearPtr(_, _) => ClearKeeps(was, th, g.ring.slots, g.staged, |g.evicted|, p);
    }
  }

  lemma WriterFrame(g: System, t: Tid, c: Choice, h: System)
    requires t < |g.threads| && Next(g, t, c) == Some(h)
    requires var th := g.threads[t];
             th.WriteStart? || th.SizeCheck? || th.WantFlush? || th.MoveIn? || th.FixOut? || th.ClearEnd?
             || th.FlushUnlock? || th.WriteUnlock?
    ensures h.ring.slots == g.ring.slots && h.block == g.block && h.evicted == g.evicted
    ensures !g.threads[t].ClearEnd? ==> h.staged == g.staged
    ensures t < |h.threads|
    ensures HoldsBuff(g.threads[t]) || HoldsBuff(h.threads[t]) ==>
              && (HoldsBuff(g.threads[t]) ==> Handing(Some(h.threads[t])) == Handing(Some(g.threads[t]))
                                              && Dropping(Some(h.threads[t])) == Dropping(Some(g.threads[t])))
              && (!HoldsBuff(g.threads[t]) ==> h.threads[t].PutSlot?)
              && (HoldsBuff(g.threads[t]) && !HoldsBuff(h.threads[t]) ==> g.threads[t].FlushUnlock?)
  {
    hide FlushedAt, Untouched;
  }

  lemma WriterHeap(g: System, t: Tid, c: Choice, h: System, p: Heap)
    requires Steps(g, t, c, h) && Inv(h) && Heaped(g, p)
    requires var th := g.threads[t];
             th.WriteStart? || th.SizeCheck? || th.WantFlush? || th.MoveIn? || th.FixOut? || th.ClearEnd?
             || th.FlushUnlock? || th.WriteUnlock?
    ensures Heaped(h, NextHeap(g, t, c, p))
  {
    hide HeapOk, Inv, Next;
    BuffHolder(g, t, c, h);
    WriterFrame(g, t, c, h);
    if g.threads[t].ClearEnd? { ClearedBlock(g, t); }
    var (b, b') := (Holder(g, g.buffMutex), Holder(h, h.buffMutex));
    PlainKeeps(b, b', g.ring.slots, g.block, g.staged, h.staged, |g.evicted|, p);
  }

  lemma ReaderHeap(g: System, t: Tid, c: Choice, h: System, p: Heap)
    requires Steps(g, t, c, h) && Inv(h) && Heaped(g, p) && !IsWriting(g.threads[t])
    ensures Heaped(h, NextHeap(g, t, c, p))
  {
    hide HeapOk, Inv, Next;
    BuffHolder(g, t, c, h);
    StepModest(g, t, c, h);
    var (b, b') := (Holder(g, g.buffMutex), Holder(h, h.buffMutex));
    PlainKeeps(b, b', g.ring.slots, g.block, g.staged, h.staged, |g.evicted|, p);
  }

  lemma StepHeap(g: System, t: Tid, c: Choice, h: System, p: Heap)
    requires Steps(g, t, c, h) && Heaped(g, p)
    ensures Heaped(h, NextHeap(g, t, c, p))
  {
    StepKeepsInv(g, t, c, h);
    hide Inv, Next, Heaped, NextHeap;
    var th := g.threads[t];
    if th.Scan? {
      ScanHeap(g, t, c, h, p);
    } else if th.PutSlot? || th.DropBlock? || th.ClearPtr? {
      CommitHeap(g, t, c, h, p);
    } else if IsWriting(th) {
      WriterHeap(g, t, c, h, p);
    } else {
      ReaderHeap(g, t, c, h, p);
    }
  }

  lemma {:induction false} ReachableHeap(threads: seq<Thread>, sched: Schedule)
    requires AllStarting(threads)
    ensures Heaped(Exec(Start(threads), sched), ExecHeap(threads, sched))
  {
    hide Inv, Next, Heaped, NextHeap;
    if sched == [] {
      StartHeap(threads);
    } else {
      var n := |sched| - 1;
      ReachableHeap(threads, sched[..n]);
      ReachableInv(threads, sched[..n]);
      var g := Exec(Start(threads), sched[..n]);
      var (t, c) := sched[n];
      if t < |g.threads| && Next(g, t, c).Some? {
        StepHeap(g, t, c, Next(g, t, c).value, ExecHeap(threads, sched[..n]));
      }
    }
  }

  lemma StartHeap(threads: seq<Thread>)
    ensures Heaped(Start(threads), NoBlocks())
  {
  }

  // ---- Ownership at every moment ----

  /** Under every schedule of any threads, at every moment: no block is freed twice, and as many have been
      freed as entries evicted; every block handed out has been freed, or some pointer still holds it; no slot
      points to a freed block, no two slots share one, and what a slot's block contains is the slot's entry;
      and the staging block is also in the ring exactly while a commit is between putting it there and
      clearing the staging pointer. */
  lemma OwnedAtEveryMoment(threads: seq<Thread>, sched: Schedule)
    requires AllStarting(threads)
    ensures var (g, p) := (Exec(Start(threads), sched), ExecHeap(threads, sched));
            && FreedOnce(p.freed, |p.memory|) && |p.freed| == |g.evicted| && AllFound(p)
            && SlotsOk(g.ring.slots, p)
            && (p.stage.Some? <==> g.block) && PointsTo(p.stage, g.staged, p)
            && (p.stage.Some? ==> (p.stage in p.slots <==> Handing(Holder(g, g.buffMutex))))
  {
    ReachableHeap(threads, sched);
  }

  /** Once every call has returned, freeing what the slots and the stage point to, as unloading does, has
      freed every block ever handed out, each once. */
  lemma UnloadFreesAll(threads: seq<Thread>, sched: Schedule)
    requires AllStarting(threads)
    requires forall th :: th in Exec(Start(threads), sched).threads ==> IsDone(th)
    ensures var p := ExecHeap(threads, sched);
            && p.free == None && (p.stage.Some? ==> p.stage !in p.slots)
            && (forall id: Id :: id < |p.memory| <==> id in p.freed || Some(id) in p.slots || p.stage == Some(id))
            && (forall id: Id :: id in p.freed ==> Some(id) !in p.slots && p.stage != Some(id))
            && (forall i, j :: 0 <= i < j < |p.slots| && p.slots[i].Some? ==> p.slots[i] != p.slots[j])
            && FreedOnce(p.freed, |p.memory|)
  {
    ReachableHeap(threads, sched);
    ReturnsUnlocked(threads, sched);
    var (g, p) := (Exec(Start(threads), sched), ExecHeap(threads, sched));
    assert g.buffMutex == None;
    forall id: Id | Some(id) in p.slots
      ensures id < |p.memory| && id !in p.freed
    {
      var i :| 0 <= i < |p.slots| && p.slots[i] == Some(id);
      assert PointsTo(p.slots[i], g.ring.slots[i], p);
    }
  }
}
