/** Every schedule of the two-mutex protocol keeps the invariant, loses no byte, and ends. */
module ProtocolProofs {
  import opened Prelude
  import opened Positions
  import opened Rings
  import opened Lines
  import opened Stream
  import opened Content
  import opened Runs
  import opened Protocol
  import opened ProtocolSteps

  // ---- Steps on the logical state ----

  lemma CommitSplit(commits: seq<seq<byte>>, staged: seq<byte>)
    ensures Commit(Split(commits, staged)) == Split(commits + [staged], [])
  {
    WindowPush(commits, staged);
    assert Gone(commits) + Dropped(Window(commits)) == Gone(commits + [staged]);
  }

  /** A newline whose commit had not gone through yet now has. */
  lemma FlushFeeds(s: State, buf: seq<byte>, env: Env, base: nat)
    requires env.Covers(buf) && 0 < base <= |buf| && buf[base - 1] == NEWLINE && !env.flush[base - 1]
    ensures FlushedAt(env, base).Covers(buf)
    ensures Fed(s, buf, FlushedAt(env, base), base) == Commit(Fed(s, buf, env, base))
  {
    var e := FlushedAt(env, base);
    FedStep(s, buf, env, base - 1);
    FedStep(s, buf, e, base - 1);
    assert e.flush[..base - 1] == env.flush[..base - 1];
  }

  // ---- Locks ----

  /** Who holds what, before and after a step of t. */
  ghost predicate Holders(g: System, t: Tid, h: System)
    requires t < |g.threads| == |h.threads|
  {
    var a, b := g.threads[t], h.threads[t];
    && Holder(h, h.entryMutex)
       == (if HoldsEntry(b) then Some(b) else if HoldsEntry(a) then None else Holder(g, g.entryMutex))
    && Holder(h, h.buffMutex)
       == (if HoldsBuff(b) then Some(b) else if HoldsBuff(a) then None else Holder(g, g.buffMutex))
    && (HoldsEntry(a) ==> Holder(g, g.entryMutex) == Some(a))
    && (HoldsBuff(a) ==> Holder(g, g.buffMutex) == Some(a))
    && (HoldsEntry(b) && !HoldsEntry(a) ==> Holder(g, g.entryMutex) == None)
    && (HoldsBuff(b) && !HoldsBuff(a) ==> Holder(g, g.buffMutex) == None)
    && (HoldsEntry(a) && !HoldsBuff(a) && Holder(g, g.buffMutex).Some? ==> !HoldsEntry(Holder(g, g.buffMutex).value))
    && (Holder(g, g.entryMutex).Some? && !HoldsEntry(a) ==> Holder(g, g.entryMutex) == Holder(h, h.entryMutex))
  }

  /** What one thread's move does to the owners. */
  lemma LocksAfter(g: System, h: System, t: Tid, th: Thread)
    requires Locks(g) && t < |g.threads| && h.threads == g.threads[t := th]
    requires HoldsEntry(th) && !HoldsEntry(g.threads[t]) ==> g.entryMutex == None
    requires HoldsBuff(th) && !HoldsBuff(g.threads[t]) ==> g.buffMutex == None
    requires h.entryMutex == if HoldsEntry(th) then Some(t) else if HoldsEntry(g.threads[t]) then None else g.entryMutex
    requires h.buffMutex == if HoldsBuff(th) then Some(t) else if HoldsBuff(g.threads[t]) then None else g.buffMutex
    ensures Locks(h) && Holders(g, t, h)
  {
    forall u | 0 <= u < |h.threads|
      ensures HoldsEntry(h.threads[u]) <==> h.entryMutex == Some(u)
      ensures HoldsBuff(h.threads[u]) <==> h.buffMutex == Some(u)
    {
      if u != t { assert h.threads[u] == g.threads[u]; }
    }
  }

  lemma ExplainedGrows(th: Thread, commits: seq<seq<byte>>, more: seq<seq<byte>>, calls: seq<Call>, done: seq<Call>)
    requires CallsOk(calls) && CallsOk(calls + done) && Explained(th, commits, calls)
    ensures Explained(th, commits + more, calls + done)
  {
    if th.ReadDone? || th.SeekDone? || th.LseekDone? {
      assert (commits + more)[..th.seen] == commits[..th.seen];
    } else if th.WriteDone? {
      assert (calls + done)[..th.at] == calls[..th.at];
    }
  }

  lemma ExplainedAfter(g: System, h: System, t: Tid, th: Thread)
    requires t < |g.threads| && h.threads == g.threads[t := th]
    requires g.commits <= h.commits && g.calls <= h.calls && CallsOk(h.calls)
    requires forall u :: 0 <= u < |g.threads| ==> Explained(g.threads[u], g.commits, g.calls)
    requires Explained(th, h.commits, h.calls)
    ensures forall u :: 0 <= u < |h.threads| ==> Explained(h.threads[u], h.commits, h.calls)
  {
    var more, done := h.commits[|g.commits|..], h.calls[|g.calls|..];
    assert g.commits + more == h.commits && g.calls + done == h.calls;
    forall u | 0 <= u < |h.threads|
      ensures Explained(h.threads[u], h.commits, h.calls)
    {
      if u != t { ExplainedGrows(g.threads[u], g.commits, more, g.calls, done); }
    }
  }

  // ---- One lemma for each kind of step ----

  ghost predicate Steps(g: System, t: Tid, c: Choice, h: System)
  {
    Inv(g) && t < |g.threads| && Next(g, t, c) == Some(h)
  }

  /** entryMutex is obtained, or the wait for it is interrupted. */
  lemma StepWriteStart(g: System, t: Tid, c: Choice, h: System)
    requires Steps(g, t, c, h) && g.threads[t].WriteStart?
    ensures Inv(h)
  {
    hide Run, RingHeld, Explained;
    LocksAfter(g, h, t, h.threads[t]);
    UnfinishedExplained(h.threads[t], g.commits, g.calls);
    ExplainedAfter(g, h, t, h.threads[t]);
  }

  /** The size check is the one a write run alone would make. */
  lemma CheckSerial(calls: seq<Call>, buf: seq<byte>, now: State)
    requires CallsOk(calls) && SerialOk(Some(SizeCheck(buf)), now, calls, Untouched(buf))
    ensures SerialOk(Some(if |now.staged| + |buf| > KMALLOC_MAX_SIZE then WriteUnlock(buf, 0, Err(ENOMEM))
                          else Scan(buf, 0)), now, calls, Untouched(buf))
  {
    FedNone(now, buf, Untouched(buf));
  }

  lemma StepSizeCheck(g: System, t: Tid, c: Choice, h: System)
    requires Steps(g, t, c, h) && g.threads[t].SizeCheck?
    ensures Inv(h)
  {
    hide Next, RingHeld, Explained, SerialOk;
    Checks(g, t, c, h);
    LocksAfter(g, h, t, h.threads[t]);
    UnfinishedExplained(h.threads[t], g.commits, g.calls);
    ExplainedAfter(g, h, t, h.threads[t]);
    SerialChecks(g, t);
    CheckSerial(g.calls, g.threads[t].buf, Split(g.commits, g.staged));
  }

  lemma Checks(g: System, t: Tid, c: Choice, h: System)
    requires t < |g.threads| && Next(g, t, c) == Some(h) && g.threads[t].SizeCheck?
    ensures var buf := g.threads[t].buf;
            h == To(g, t, if |g.staged| + |buf| > KMALLOC_MAX_SIZE then WriteUnlock(buf, 0, Err(ENOMEM))
                          else Scan(buf, 0))
  {
  }

  lemma SerialChecks(g: System, t: Tid)
    requires Inv(g) && t < |g.threads| && g.threads[t].SizeCheck? && Holder(g, g.entryMutex) == Some(g.threads[t])
    ensures g.env == Untouched(g.threads[t].buf)
  {
  }

  /** The segment of buf stored by a scan from base, up to next; th is where the writer goes. */
  ghost predicate Stores(th: Thread, buf: seq<byte>, base: nat, next: nat)
  {
    && base < next <= |buf| && NEWLINE !in buf[base..next - 1]
    && ((th == WriteUnlock(buf, next, Ok(|buf|)) && next == |buf| && buf[next - 1] != NEWLINE)
        || (th == WantFlush(buf, next) && buf[next - 1] == NEWLINE))
  }

  lemma StoreStage(th: Thread, buf: seq<byte>, base: nat, next: nat, block: bool, staged: seq<byte>)
    requires Stores(th, buf, base, next) && StageOk(Some(Scan(buf, base)), block, staged)
    ensures StageOk(Some(th), true, staged + buf[base..next])
  {
  }

  /** A segment stored is accepted as it would be by the write run alone. */
  lemma StoreSerial(th: Thread, buf: seq<byte>, base: nat, next: nat, commits: seq<seq<byte>>, staged: seq<byte>,
                    calls: seq<Call>, env: Env)
    requires Stores(th, buf, base, next) && CallsOk(calls)
    requires SerialOk(Some(Scan(buf, base)), Split(commits, staged), calls, env)
    ensures SerialOk(Some(th), Split(commits, staged + buf[base..next]), calls, env)
  {
    var s := Run(INIT, calls);
    hide Run, FeedAll, FirstStall, LineEnd;
    if th.WantFlush? {
      FedLine(s, buf, env, base, next);
    } else {
      assert buf[base..next] == buf[base..next - 1] + [buf[next - 1]];
      FedPlain(s, buf, env, base, next);
    }
    NoStallInside(s, buf, env, base, next);
    if th.WriteUnlock? { AcceptedIs(s, buf, env, next); }
  }

  /** A block missing at a segment's start is where the write run alone would stop. */
  lemma MissSerial(buf: seq<byte>, base: nat, commits: seq<seq<byte>>, calls: seq<Call>, env: Env)
    requires base < |buf| && CallsOk(calls) && SerialOk(Some(Scan(buf, base)), Split(commits, []), calls, env)
    ensures SerialOk(Some(WriteUnlock(buf, base, if NEWLINE in buf[base..] then Err(ENOMEM) else Ok(|buf|))),
                     Split(commits, []), calls, MissedAt(env, base))
  {
    var s, e := Run(INIT, calls), MissedAt(env, base);
    hide Run, FeedAll, FirstStall;
    forall p | 0 <= p < base
      ensures !Stalls(s, buf, e, p)
    {
      assert !Stalls(s, buf, env, p);
    }
    AcceptedIs(s, buf, e, base);
  }

  lemma EndSerial(buf: seq<byte>, base: nat, now: State, calls: seq<Call>, env: Env)
    requires base >= |buf| && CallsOk(calls) && SerialOk(Some(Scan(buf, base)), now, calls, env)
    ensures SerialOk(Some(WriteUnlock(buf, base, Ok(|buf|))), now, calls, env)
  {
    var s := Run(INIT, calls);
    hide Run, FeedAll, FirstStall;
    AcceptedIs(s, buf, env, |buf|);
  }

  /** Only a committing thread's view of the ring involves the stage. */
  lemma RingIgnoresStage(holder: Option<Thread>, ring: Ring<seq<byte>>, evicted: seq<seq<byte>>,
                         commits: seq<seq<byte>>, staged: seq<byte>, staged': seq<byte>)
    requires RingHeld(holder, ring, evicted, commits, staged)
    requires holder.Some? ==> !HoldsEntry(holder.value)
    ensures RingHeld(holder, ring, evicted, commits, staged')
  {
  }

  lemma ScanStores(g: System, t: Tid, c: Choice, h: System)
    requires t < |g.threads| && Next(g, t, c) == Some(h) && g.threads[t].Scan?
    requires g.threads[t].base < |g.threads[t].buf| && (g.block || !c.NoBlock?)
    ensures var (buf, base) := (g.threads[t].buf, g.threads[t].base);
            var next := SegmentEnd(buf, base);
            var th := if NEWLINE in buf[base..] then WantFlush(buf, next) else WriteUnlock(buf, next, Ok(|buf|));
            h == To(g, t, th).(block := true, staged := g.staged + buf[base..next])
  {
    hide SegmentEnd;
  }

  /** The scanning writer keeps entryMutex, and whoever has buffMutex is no writer. */
  lemma ScanLocks(g: System, t: Tid, th: Thread, h: System)
    requires Inv(g) && t < |g.threads| && g.threads[t].Scan? && (th.WantFlush? || th.WriteUnlock?)
    requires h.threads == g.threads[t := th] && h.entryMutex == g.entryMutex && h.buffMutex == g.buffMutex
    ensures Locks(h) && Holder(g, g.entryMutex) == Some(g.threads[t]) && Holder(h, h.entryMutex) == Some(th)
    ensures Holder(h, h.buffMutex) == Holder(g, g.buffMutex)
    ensures Holder(g, g.buffMutex).Some? ==> !HoldsEntry(Holder(g, g.buffMutex).value)
  {
    hide OrderOk, StageOk, SerialOk, RingHeld, Explained;
    assert HoldsEntry(g.threads[t]) <==> g.entryMutex == Some(t);
    LocksAfter(g, h, t, th);
  }

  /** A segment is stored. Whoever holds buffMutex meanwhile does not look at the stage. */
  lemma StepScanStore(g: System, t: Tid, c: Choice, h: System)
    requires Steps(g, t, c, h) && g.threads[t].Scan?
    requires g.threads[t].base < |g.threads[t].buf| && (g.block || !c.NoBlock?)
    ensures Inv(h)
  {
    hide Next, Explained, StageOk, RingHeld, SerialOk, LineEnd, Locks, Split;
    ScanStores(g, t, c, h);
    var buf, base := g.threads[t].buf, g.threads[t].base;
    var next := SegmentEnd(buf, base);
    ScanSegment(buf, base, next);
    hide SegmentEnd;
    ScanLocks(g, t, h.threads[t], h);
    UnfinishedExplained(h.threads[t], g.commits, g.calls);
    ExplainedAfter(g, h, t, h.threads[t]);
    StoreStage(h.threads[t], buf, base, next, g.block, g.staged);
    StoreSerial(h.threads[t], buf, base, next, g.commits, g.staged, g.calls, g.env);
    RingIgnoresStage(Holder(g, g.buffMutex), g.ring, g.evicted, g.commits, g.staged, h.staged);
  }

  /** The scan ends, or a block it needs is missing. */
  lemma StepScanEnd(g: System, t: Tid, c: Choice, h: System)
    requires Steps(g, t, c, h) && g.threads[t].Scan?
    requires g.threads[t].base >= |g.threads[t].buf| || (!g.block && c.NoBlock?)
    ensures Inv(h)
  {
    hide Explained, RingHeld, SerialOk, LineEnd;
    LocksAfter(g, h, t, h.threads[t]);
    UnfinishedExplained(h.threads[t], g.commits, g.calls);
    ExplainedAfter(g, h, t, h.threads[t]);
    var buf, base := g.threads[t].buf, g.threads[t].base;
    if base >= |buf| {
      EndSerial(buf, base, Split(g.commits, g.staged), g.calls, g.env);
    } else {
      MissSerial(buf, base, g.commits, g.calls, g.env);
    }
  }

  /** A scan stops after the first newline, or at the end. */
  lemma ScanSegment(buf: seq<byte>, base: nat, next: nat)
    requires base < |buf|
    requires next == SegmentEnd(buf, base)
    ensures base < next <= |buf| && NEWLINE !in buf[base..next - 1]
    ensures NEWLINE in buf[base..] <==> buf[next - 1] == NEWLINE
  {
    var b := buf[base..];
    assert buf[next - 1] == b[next - 1 - base];
    if NEWLINE in b {
      NewlineLast(b, LineEnd(b));
      assert buf[base..next - 1] == b[..LineEnd(b)][..LineEnd(b) - 1];
    } else {
      assert buf[base..next - 1] == b[..|b| - 1];
    }
  }

  /** buffMutex is obtained for a commit, or the wait is interrupted and the line stays staged. */
  lemma StepWantFlush(g: System, t: Tid, c: Choice, h: System)
    requires Steps(g, t, c, h) && g.threads[t].WantFlush?
    ensures Inv(h)
  {
    hide Explained, Run, RingOk, Writing;
    LocksAfter(g, h, t, h.threads[t]);
    UnfinishedExplained(h.threads[t], g.commits, g.calls);
    ExplainedAfter(g, h, t, h.threads[t]);
  }

  lemma RingRoom(r: Ring<seq<byte>>, commits: seq<seq<byte>>)
    requires RingOk(r, commits)
    ensures r.inOffs < |r.slots|
  {
  }

  /** The first two assignments of the insertion. */
  lemma StepIntoRing(g: System, t: Tid, c: Choice, h: System)
    requires Steps(g, t, c, h) && (g.threads[t].PutSlot? || g.threads[t].MoveIn?)
    ensures Inv(h)
  {
    hide Explained, Run, Writing, RingOk, Gone;
    LocksAfter(g, h, t, h.threads[t]);
    UnfinishedExplained(h.threads[t], g.commits, g.calls);
    ExplainedAfter(g, h, t, h.threads[t]);
    RingRoom(if g.threads[t].PutSlot? then g.ring else g.threads[t].was, g.commits);
  }

  /** The insertion as a whole: the ring is again the window of what has been committed. */
  lemma InsertOk(was: Ring<seq<byte>>, commits: seq<seq<byte>>, staged: seq<byte>)
    requires RingOk(was, commits) && staged != []
    ensures RingOk(was.Add(staged), commits + [staged])
    ensures var free := was.slots[was.inOffs];
            Gone(commits) + (if free == [] then [] else [free]) == Gone(commits + [staged])
  {
    hide Ring<seq<byte>>.Queue, Ring<seq<byte>>.Add;
    AddRefinesPush(was, staged, []);
    WindowPush(commits, staged);
    assert was.full ==> was.Queue()[0] == commits[|commits| - CAPACITY];
  }

  /** The commit is the one that the write run alone makes at that newline. */
  lemma CommitSerial(was: Thread, th: Thread, commits: seq<seq<byte>>, staged: seq<byte>, calls: seq<Call>, env: Env)
    requires was.FixOut? && th.DropBlock? && th.buf == was.buf && th.base == was.base
    requires CallsOk(calls) && SerialOk(Some(was), Split(commits, staged), calls, env)
    ensures SerialOk(Some(th), Split(commits + [staged], []), calls, FlushedAt(env, was.base))
  {
    var s, e := Run(INIT, calls), FlushedAt(env, was.base);
    hide Run, FeedAll, FirstStall;
    FlushFeeds(s, was.buf, env, was.base);
    CommitSplit(commits, staged);
    forall p | 0 <= p < was.base
      ensures !Stalls(s, was.buf, e, p)
    {
      assert !Stalls(s, was.buf, env, p);
      assert e.flush[..p] == env.flush[..p];
    }
  }

  /** The last assignment of the insertion, at which the commit takes effect. */
  lemma StepFixOut(g: System, t: Tid, c: Choice, h: System)
    requires Steps(g, t, c, h) && g.threads[t].FixOut?
    ensures Inv(h)
  {
    hide Explained, SerialOk, RingOk, Gone, CallsOk, FlushedAt;
    LocksAfter(g, h, t, h.threads[t]);
    UnfinishedExplained(h.threads[t], h.commits, g.calls);
    ExplainedAfter(g, h, t, h.threads[t]);
    CommitSerial(g.threads[t], h.threads[t], g.commits, g.staged, g.calls, g.env);
    InsertOk(g.threads[t].was, g.commits, g.staged);
  }

  lemma StepClear(g: System, t: Tid, c: Choice, h: System)
    requires Steps(g, t, c, h) && (g.threads[t].DropBlock? || g.threads[t].ClearPtr? || g.threads[t].ClearEnd?)
    ensures Inv(h)
  {
    hide Explained, Run, Writing, RingOk, Gone;
    LocksAfter(g, h, t, h.threads[t]);
    UnfinishedExplained(h.threads[t], g.commits, g.calls);
    ExplainedAfter(g, h, t, h.threads[t]);
  }

  lemma StepFlushUnlock(g: System, t: Tid, c: Choice, h: System)
    requires Steps(g, t, c, h) && g.threads[t].FlushUnlock?
    ensures Inv(h)
  {
    hide Explained, Run, Writing, RingOk, Gone;
    LocksAfter(g, h, t, h.threads[t]);
    UnfinishedExplained(h.threads[t], g.commits, g.calls);
    ExplainedAfter(g, h, t, h.threads[t]);
  }

  /** A write that ends is the next in the serial run, and returns what it returns there. */
  lemma DoneSerial(buf: seq<byte>, n: nat, ret: Ret, now: State, calls: seq<Call>, env: Env, commits: seq<seq<byte>>)
    requires CallsOk(calls) && SerialOk(Some(WriteUnlock(buf, n, ret)), now, calls, env)
    ensures CallsOk(calls + [Call(buf, env)]) && SerialOk(None, now, calls + [Call(buf, env)], env)
    ensures Explained(WriteDone(ret, |calls|), commits, calls + [Call(buf, env)])
  {
    var more := calls + [Call(buf, env)];
    assert more[..|calls|] == calls;
  }

  lemma StepWriteUnlock(g: System, t: Tid, c: Choice, h: System)
    requires Steps(g, t, c, h) && g.threads[t].WriteUnlock?
    ensures Inv(h)
  {
    hide Explained, SerialOk, RingHeld;
    var th := g.threads[t];
    LocksAfter(g, h, t, h.threads[t]);
    DoneSerial(th.buf, th.base, th.ret, Split(g.commits, g.staged), g.calls, g.env, g.commits);
    ExplainedAfter(g, h, t, h.threads[t]);
  }

  // ---- Readers and seekers ----

  lemma SlotsInOrder(r: Ring<seq<byte>>, k: nat)
    requires r.Valid([])
    ensures SlotAt(r, k) == r.Rotated()[Wrap(k)]
    ensures k < CAPACITY ==>
              PrefixSum(SizesOf(r.Rotated()), k + 1) == PrefixSum(SizesOf(r.Rotated()), k) + |SlotAt(r, k)|
  {
    VirtualOffset(r, k, []);
  }

  lemma RingPadded(r: Ring<seq<byte>>)
    requires r.Valid([])
    ensures Padded(SizesOf(r.Rotated()), r.Count()) && SizesOf(r.Rotated())[..r.Count()] == SizesOf(r.Queue())
  {
    forall k | 0 <= k < CAPACITY
      ensures r.Rotated()[k] == if k < r.Count() then r.Queue()[k] else []
    {
      BlankTail(r, k, []);
    }
  }

  /** The reader's loop keeps its running sum, and ends with what one undisturbed lookup would find. */
  lemma ReadLearns(r: Ring<seq<byte>>, pos: nat, count: nat, index: nat, passed: nat)
    requires r.Valid([]) && Learnt(ReadScan(pos, count, index, passed), r)
    ensures Learnt(ReadRound(r, pos, count, index, passed), r)
  {
    hide ReadData, PrefixSum, SizesOf, SlotAt;
    if passed <= pos && index < CAPACITY {
      SlotsInOrder(r, index);
    } else if passed <= pos {
      ReadEnds(r, pos, count);
    } else {
      RingCounts(r);
      ReadFinds(r, pos, count, index - 1);
    }
  }

  lemma ReadEnds(r: Ring<seq<byte>>, pos: nat, count: nat)
    requires r.Valid([]) && PrefixSum(SizesOf(r.Rotated()), CAPACITY) <= pos
    ensures ReadData(r.Queue(), pos, count) == []
  {
    RingPadded(r);
    PaddedSums(SizesOf(r.Rotated()), r.Count(), CAPACITY);
    ReadNothing(r.Queue(), pos, count);
  }

  lemma ReadFinds(r: Ring<seq<byte>>, pos: nat, count: nat, k: nat)
    requires r.Valid([]) && k < CAPACITY
    requires var sizes := SizesOf(r.Rotated()); PrefixSum(sizes, k) <= pos < PrefixSum(sizes, k + 1)
    ensures var entry := SlotAt(r, k);
            var off := pos - (PrefixSum(SizesOf(r.Rotated()), k + 1) - |entry|);
            0 <= off <= |entry| && ReadData(r.Queue(), pos, count) == entry[off..off + Min(|entry| - off, count)]
  {
    hide ReadData, Locate;
    RingPadded(r);
    var sizes := SizesOf(r.Rotated());
    SlotsInOrder(r, k);
    CrossingPlace(sizes, r.Count(), pos, k);
    BlankTail(r, k, []);
    ReadFound(r.Queue(), pos, count, k, pos - PrefixSum(sizes, k));
  }

  lemma EmptyReads(r: Ring<seq<byte>>, pos: nat, count: nat)
    requires r.Valid([]) && r.inOffs == r.outOffs && !r.full
    ensures ReadData(r.Queue(), pos, count) == []
  {
    assert r.Queue() == [];
  }

  // A step of a call that does not write is shown in two parts: what it makes of the thread, where the
  // invariant does not matter, and that the invariant is kept, where only the kind of the step does.

  lemma WritesFine(g: System)
    requires Inv(g)
    ensures CallsOk(g.calls)
  {
  }

  /** What a thread that holds buffMutex and does not write knows. */
  lemma LookerKnows(g: System, t: Tid)
    requires Inv(g) && t < |g.threads| && !IsWriting(g.threads[t]) && HoldsBuff(g.threads[t])
    ensures RingOk(g.ring, g.commits) && Learnt(g.threads[t], g.ring)
  {
    hide OrderOk, StageOk, SerialOk, Explained, RingOk, Learnt;
    assert Holder(g, g.buffMutex) == Some(g.threads[t]);
  }

  lemma LookerKeeps(g: System, t: Tid, c: Choice, h: System)
    requires Steps(g, t, c, h) && !IsWriting(g.threads[t]) && t < |h.threads|
    requires Explained(h.threads[t], g.commits, g.calls)
    requires g.ring.Valid([]) && HoldsBuff(h.threads[t]) ==> Learnt(h.threads[t], g.ring)
    ensures Inv(h)
  {
    hide Next, Explained, SerialOk, OrderOk, StageOk, Gone, Learnt, Window;
    StepModest(g, t, c, h);
    LocksAfter(g, h, t, h.threads[t]);
    ExplainedAfter(g, h, t, h.threads[t]);
  }

  lemma StepReadStart(g: System, t: Tid, c: Choice, h: System)
    requires Steps(g, t, c, h) && (g.threads[t].ReadStart? || g.threads[t].ReadPos?)
    ensures Inv(h)
  {
    hide Inv, Explained, ReadData, ActualPos, PrefixSum, SizesOf;
    WritesFine(g);
    UnfinishedExplained(h.threads[t], g.commits, g.calls);
    if h.threads[t].ReadScan? && g.ring.Valid([]) { RingCounts(g.ring); }
    if h.threads[t].ReadUnlock? && g.ring.Valid([]) { EmptyReads(g.ring, h.threads[t].pos, h.threads[t].count); }
    LookerKeeps(g, t, c, h);
  }

  lemma SeekLearns(r: Ring<seq<byte>>, cmd: nat, off: nat, index: nat, sum: nat)
    requires r.Valid([]) && Learnt(SeekScan(cmd, off, index, sum), r)
    ensures Learnt(SeekRound(r, cmd, off, index, sum), r)
  {
    hide PrefixSum, SizesOf, SlotAt, Ring<seq<byte>>.Rotated, Ring<seq<byte>>.Queue;
    if cmd <= r.Count() {
      SlotsInOrder(r, if index < cmd then index else cmd);
      if index == cmd {
        RingPadded(r);
        PaddedSums(SizesOf(r.Rotated()), r.Count(), cmd);
        BlankTail(r, Wrap(cmd), []);
      }
    }
  }

  lemma StepScanRing(g: System, t: Tid, c: Choice, h: System)
    requires Steps(g, t, c, h) && (g.threads[t].ReadScan? || g.threads[t].SeekScan?)
    ensures Inv(h)
  {
    hide Inv, Explained, Learnt, ReadRound, SeekRound, RingOk;
    WritesFine(g);
    LookerKnows(g, t);
    RingIsValid(g.ring, g.commits);
    UnfinishedExplained(h.threads[t], g.commits, g.calls);
    match g.threads[t] {
      case ReadScan(pos, count, index, passed) => ReadLearns(g.ring, pos, count, index, passed);
      case SeekScan(cmd, off, index, sum) => SeekLearns(g.ring, cmd, off, index, sum);
    }
    LookerKeeps(g, t, c, h);
  }

  lemma RingIsValid(r: Ring<seq<byte>>, commits: seq<seq<byte>>)
    requires RingOk(r, commits)
    ensures r.Valid([]) && r.Queue() == Window(commits)
  {
  }

  lemma UnfinishedExplained(th: Thread, commits: seq<seq<byte>>, calls: seq<Call>)
    requires CallsOk(calls) && !th.ReadDone? && !th.SeekDone? && !th.LseekDone? && !th.WriteDone?
    ensures Explained(th, commits, calls)
  {
  }

  lemma RingCounts(r: Ring<seq<byte>>)
    requires r.Valid([])
    ensures PrefixSum(SizesOf(r.Rotated()), 0) == 0
  {
  }

  lemma StepSeekStart(g: System, t: Tid, c: Choice, h: System)
    requires Steps(g, t, c, h) && (g.threads[t].SeekStart? || g.threads[t].LseekStart?)
    ensures Inv(h)
  {
    hide Inv, Explained, PrefixSum, SizesOf;
    WritesFine(g);
    UnfinishedExplained(h.threads[t], g.commits, g.calls);
    if g.ring.Valid([]) { RingCounts(g.ring); }
    LookerKeeps(g, t, c, h);
  }

  /** The sum over the slots is the size of the content, once the loop is done. */
  lemma LseekLearns(r: Ring<seq<byte>>, index: nat, sum: nat)
    requires r.Valid([]) && index <= r.Count() && sum == PrefixSum(SizesOf(r.Rotated()), index)
    ensures index < r.Count() ==> sum + |SlotAt(r, index)| == PrefixSum(SizesOf(r.Rotated()), index + 1)
    ensures index == r.Count() ==> sum == |Flat(r.Queue())|
  {
    hide PrefixSum, SizesOf, SlotAt, Ring<seq<byte>>.Rotated, Ring<seq<byte>>.Queue, Flat;
    if index < r.Count() {
      SlotsInOrder(r, index);
    } else {
      RingPadded(r);
      PaddedSums(SizesOf(r.Rotated()), r.Count(), index);
      FlatLength(r.Queue());
    }
  }

  /** The steps of an aesd_llseek that holds buffMutex and keeps it. */
  lemma StepLseek(g: System, t: Tid, c: Choice, h: System)
    requires Steps(g, t, c, h) && (g.threads[t].LseekScan? || g.threads[t].LseekRead?)
    ensures Inv(h)
  {
    hide Inv, Explained, RingOk, PrefixSum, SizesOf, SlotAt, LlseekTarget;
    WritesFine(g);
    LookerKnows(g, t);
    RingIsValid(g.ring, g.commits);
    UnfinishedExplained(h.threads[t], g.commits, g.calls);
    if g.threads[t].LseekScan? { LseekLearns(g.ring, g.threads[t].index, g.threads[t].sum); }
    LookerKeeps(g, t, c, h);
  }

  /** Unlocking turns what the holder learnt into a result explained by the commits so far. */
  lemma StepUnlockReader(g: System, t: Tid, c: Choice, h: System)
    requires Steps(g, t, c, h) && (g.threads[t].ReadUnlock? || g.threads[t].SeekUnlock? || g.threads[t].LseekUnlock?)
    ensures Inv(h)
  {
    hide Inv, RingOk, Copied, ReadData, SeekTarget, Run, WriteResult;
    WritesFine(g);
    LookerKnows(g, t);
    RingIsValid(g.ring, g.commits);
    assert g.commits[..|g.commits|] == g.commits;
    LookerKeeps(g, t, c, h);
  }

  lemma StepRelease(g: System, t: Tid, c: Choice, h: System)
    requires Steps(g, t, c, h) && g.threads[t].ReleaseStart?
    ensures Inv(h)
  {
    hide Inv, Explained;
    WritesFine(g);
    UnfinishedExplained(h.threads[t], g.commits, g.calls);
    LookerKeeps(g, t, c, h);
  }

  // ---- Every reachable state ----

  lemma StepKeepsInv(g: System, t: Tid, c: Choice, h: System)
    requires Steps(g, t, c, h)
    ensures Inv(h)
  {
    hide Inv, Next;
    match g.threads[t]
    case WriteStart(_) => StepWriteStart(g, t, c, h);
    case SizeCheck(_) => StepSizeCheck(g, t, c, h);
    case Scan(buf, base) =>
      if base < |buf| && (g.block || !c.NoBlock?) { StepScanStore(g, t, c, h); } else { StepScanEnd(g, t, c, h); }
    case WantFlush(_, _) => StepWantFlush(g, t, c, h);
    case PutSlot(_, _) => StepIntoRing(g, t, c, h);
    case MoveIn(_, _, _, _) => StepIntoRing(g, t, c, h);
    case FixOut(_, _, _, _) => StepFixOut(g, t, c, h);
    case DropBlock(_, _, _) => StepClear(g, t, c, h);
    case ClearPtr(_, _) => StepClear(g, t, c, h);
    case ClearEnd(_, _) => StepClear(g, t, c, h);
    case FlushUnlock(_, _) => StepFlushUnlock(g, t, c, h);
    case WriteUnlock(_, _, _) => StepWriteUnlock(g, t, c, h);
    case ReadStart(_, _) => StepReadStart(g, t, c, h);
    case ReadPos(_, _) => StepReadStart(g, t, c, h);
    case ReadScan(_, _, _, _) => StepScanRing(g, t, c, h);
    case ReadUnlock(_, _, _) => StepUnlockReader(g, t, c, h);
    case SeekStart(_, _) => StepSeekStart(g, t, c, h);
    case SeekScan(_, _, _, _) => StepScanRing(g, t, c, h);
    case SeekUnlock(_, _, _) => StepUnlockReader(g, t, c, h);
    case LseekStart(_, _) => StepSeekStart(g, t, c, h);
    case LseekScan(_, _, _, _) => StepLseek(g, t, c, h);
    case LseekRead(_, _, _) => StepLseek(g, t, c, h);
    case LseekUnlock(_, _, _, _) => StepUnlockReader(g, t, c, h);
    case ReleaseStart => StepRelease(g, t, c, h);
    case _ => DoneStays(g, t, c);
  }

  lemma StartOk(threads: seq<Thread>)
    requires forall u :: 0 <= u < |threads| ==> Starting(threads[u])
    ensures Inv(Start(threads))
  {
    assert Empty<seq<byte>>([]).Queue() == [];
  }

  lemma {:induction false} ReachableInv(threads: seq<Thread>, sched: Schedule)
    requires forall u :: 0 <= u < |threads| ==> Starting(threads[u])
    ensures Inv(Exec(Start(threads), sched))
  {
    hide Inv, Next;
    if sched == [] {
      StartOk(threads);
    } else {
      var n := |sched| - 1;
      ReachableInv(threads, sched[..n]);
      var g := Exec(Start(threads), sched[..n]);
      var (t, c) := sched[n];
      if t < |g.threads| && Next(g, t, c).Some? { StepKeepsInv(g, t, c, Next(g, t, c).value); }
    }
  }
}
