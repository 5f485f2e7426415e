/** What holds in every state that any number of threads can reach under any schedule. */
module ProtocolTheorems {
  import opened Prelude
  import opened Rings
  import opened Lines
  import opened Stream
  import opened Content
  import opened Runs
  import opened Protocol
  import opened ProtocolSteps
  import opened ProtocolProofs

  predicate AllStarting(threads: seq<Thread>) { forall u :: 0 <= u < |threads| ==> Starting(threads[u]) }

  /** Some writer is between its first assignment to the ring and its last to the stage. */
  predicate MidCommit(g: System)
  {
    var b := Holder(g, g.buffMutex);
    b.Some? && (b.value.MoveIn? || b.value.FixOut? || b.value.DropBlock? || b.value.ClearPtr? || b.value.ClearEnd?)
  }

  /** The device after the finished writes, each run on its own in the order they obtained entryMutex, and
      after the part of the current holder's buffer that has been accepted. */
  ghost function Serial(g: System): State
    requires CallsOk(g.calls)
  {
    var w, s := Holder(g, g.entryMutex), Run(INIT, g.calls);
    if w.Some? && HoldsEntry(w.value) && !w.value.SizeCheck? && InPlace(w.value, g.env)
    then Fed(s, w.value.buf, g.env, w.value.base)
    else s
  }

  /** The writer's place is in its buffer, and what it has met is about that buffer. */
  predicate InPlace(th: Thread, env: Env)
    requires HoldsEntry(th) && !th.SizeCheck?
  {
    env.Covers(th.buf) && th.base <= |th.buf|
  }

  /** The bytes those writes accepted, in that order. */
  ghost function AcceptedBytes(g: System): seq<byte>
    requires CallsOk(g.calls)
  {
    Taken(INIT, g.calls) + HeldPrefix(Holder(g, g.entryMutex))
  }

  lemma SerialIsFeed(calls: Calls, buf: seq<byte>, env: Env, n: nat)
    requires env.Covers(buf) && n <= |buf|
    ensures Fed(Run(INIT, calls), buf, env, n)
            == FeedAll(INIT, Taken(INIT, calls) + buf[..n], TakenFlushes(INIT, calls) + env.flush[..n])
  {
    RunIsOneFeed(INIT, calls);
    FeedAllConcat(INIT, Taken(INIT, calls), buf[..n], TakenFlushes(INIT, calls), env.flush[..n]);
  }

  /** What the flush at each of those bytes met. */
  ghost function FlushesMet(g: System): seq<bool>
    requires CallsOk(g.calls)
  {
    TakenFlushes(INIT, g.calls) + g.env.flush[..Min(|HeldPrefix(Holder(g, g.entryMutex))|, |g.env.flush|)]
  }

  lemma SerialFeeds(g: System)
    requires Inv(g)
    ensures |FlushesMet(g)| == |AcceptedBytes(g)| && Serial(g) == FeedAll(INIT, AcceptedBytes(g), FlushesMet(g))
    ensures Serial(g) == Split(g.commits, Waiting(Holder(g, g.entryMutex), g.staged))
  {
    hide Run, FeedAll, FirstStall, RingHeld, Explained, Locks;
    var w := Holder(g, g.entryMutex);
    if w.Some? && HoldsEntry(w.value) && !w.value.SizeCheck? {
      SerialIsFeed(g.calls, w.value.buf, g.env, w.value.base);
    } else {
      RunIsOneFeed(INIT, g.calls);
      assert AcceptedBytes(g) == Taken(INIT, g.calls) && FlushesMet(g) == TakenFlushes(INIT, g.calls);
    }
  }

  /** Serializability and conservation, at every moment and under every schedule. Outside a commit the
      dropped entries, the ring and the staged bytes are what running the writes one after another, in the
      order they obtained entryMutex, makes of the empty device; joined, they are the bytes accepted. Also
      during a commit the entries committed are those of that serial run. */
  lemma SafeAtEveryMoment(threads: seq<Thread>, sched: Schedule)
    requires AllStarting(threads)
    ensures var g := Exec(Start(threads), sched);
            && CallsOk(g.calls) && |g.calls| <= |g.acquired|
            && (forall i :: 0 <= i < |g.calls| ==> g.calls[i].buf == g.acquired[i])
            && (var w := Holder(g, g.entryMutex);
                w.Some? && HoldsEntry(w.value) && !w.value.SizeCheck? ==> InPlace(w.value, g.env))
            && Serial(g).History() == g.commits
            && (!MidCommit(g) ==>
                  && g.ring.Valid([])
                  && State(g.evicted, g.ring.Queue(), g.staged) == Serial(g)
                  && Flat(g.evicted) + Flat(g.ring.Queue()) + g.staged == AcceptedBytes(g))
  {
    hide Exec, Inv, CallsOk, Serial, Flat, AcceptedBytes, MidCommit, InPlace;
    ReachableInv(threads, sched);
    SafeState(Exec(Start(threads), sched));
  }

  lemma SafeState(g: System)
    requires Inv(g)
    ensures CallsOk(g.calls) && |g.calls| <= |g.acquired|
    ensures forall i :: 0 <= i < |g.calls| ==> g.calls[i].buf == g.acquired[i]
    ensures var w := Holder(g, g.entryMutex);
            w.Some? && HoldsEntry(w.value) && !w.value.SizeCheck? ==> InPlace(w.value, g.env)
    ensures Serial(g).History() == g.commits
    ensures !MidCommit(g) ==>
              && g.ring.Valid([])
              && State(g.evicted, g.ring.Queue(), g.staged) == Serial(g)
              && Flat(g.evicted) + Flat(g.ring.Queue()) + g.staged == AcceptedBytes(g)
  {
    SerialFeeds(g);
    SplitHistory(g.commits, Waiting(Holder(g, g.entryMutex), g.staged));
    if !MidCommit(g) { OutsideCommit(g); }
    hide FeedAll, Flat, MidCommit, Serial, AcceptedBytes, FlushesMet, RingHeld, Explained, StageOk, Locks;
    hide Run, AfterWrite;
  }

  lemma OutsideCommit(g: System)
    requires Inv(g) && !MidCommit(g)
    ensures g.ring.Valid([]) && State(g.evicted, g.ring.Queue(), g.staged) == Serial(g)
    ensures Flat(g.evicted) + Flat(g.ring.Queue()) + g.staged == AcceptedBytes(g)
  {
    NotCommitted(g);
    SerialFeeds(g);
    hide Inv, FeedAll, Flat, MidCommit, Serial, AcceptedBytes, FlushesMet;
    ConservationFromInit(AcceptedBytes(g), FlushesMet(g));
  }

  /** In every state the entries committed are newline-terminated and fit a block. */
  lemma SerialSound(g: System)
    requires Inv(g)
    ensures CallsOk(g.calls) && Serial(g).Sound() && Serial(g).History() == g.commits
  {
    hide Locks, RingHeld, Explained, StageOk, Run, FirstStall, FeedAll, State.Sound;
    var (w, s) := (Holder(g, g.entryMutex), Run(INIT, g.calls));
    SerialFeeds(g);
    SplitHistory(g.commits, Waiting(w, g.staged));
    RunSound(g.calls);
    if w.Some? && HoldsEntry(w.value) && !w.value.SizeCheck? {
      var (buf, n) := (w.value.buf, w.value.base);
      FedNone(s, buf, g.env);
      if n > 0 { Conservation(s, buf[..n], g.env.flush[..n]); }
    }
  }

  /** So what a reader finds is far below what a loff_t holds. */
  lemma RingSmall(g: System)
    requires Inv(g) && g.ring.Valid([]) && g.ring.Queue() == Window(g.commits)
    ensures |Flat(g.ring.Queue())| < 0x8000_0000
  {
    hide Inv, Serial, Flat;
    SerialSound(g);
    var (q, h) := (g.ring.Queue(), Serial(g).History());
    assert forall i :: 0 <= i < |q| ==> q[i] == h[|h| - |q| + i];
    RingBounded(q, 0);
  }

  lemma SplitHistory(commits: seq<seq<byte>>, staged: seq<byte>)
    ensures Split(commits, staged).History() == commits
  {
  }

  lemma NotCommitted(g: System)
    requires Inv(g) && !MidCommit(g)
    ensures !Committed(Holder(g, g.entryMutex))
    ensures RingOk(g.ring, g.commits) && g.evicted == Gone(g.commits)
  {
    hide SerialOk, Explained;
    if g.entryMutex.Some? {
      var u := g.entryMutex.value;
      assert HoldsBuff(g.threads[u]) <==> g.buffMutex == Some(u);
    }
  }

  /** While a reader or a seeker holds buffMutex, no commit is under way: it finds the ring valid and
      equal to the last ten of the entries committed. */
  lemma ReadersSeeWholeCommits(threads: seq<Thread>, sched: Schedule, u: Tid)
    requires AllStarting(threads)
    ensures var g := Exec(Start(threads), sched);
            u < |g.threads| && HoldsBuff(g.threads[u]) && !HoldsEntry(g.threads[u]) ==>
              !MidCommit(g) && g.ring.Valid([]) && g.ring.Queue() == Window(g.commits)
  {
    ReachableInv(threads, sched);
  }

  /** A line that asks to be flushed is really there, and the stage never outgrows a block: the NULL and
      size checks of FlushPartial and StorePartial are never the ones that fail. */
  lemma StageChecksPass(threads: seq<Thread>, sched: Schedule, u: Tid)
    requires AllStarting(threads)
    ensures var g := Exec(Start(threads), sched);
            && |g.staged| <= KMALLOC_MAX_SIZE
            && (u < |g.threads| && g.threads[u].PutSlot? ==> g.block && g.staged != [])
            && (u < |g.threads| && g.threads[u].Scan? && g.threads[u].base <= |g.threads[u].buf| ==>
                  |g.staged| + (|g.threads[u].buf| - g.threads[u].base) <= KMALLOC_MAX_SIZE)
  {
    ReachableInv(threads, sched);
    var g := Exec(Start(threads), sched);
    if u < |g.threads| && HoldsEntry(g.threads[u]) { assert Holder(g, g.entryMutex) == Some(g.threads[u]); }
  }

  // ---- Without interruptions ----

  /** The current holder's accepted newlines have been flushed, but for one whose commit is under way. */
  ghost predicate HeldFlushed(holder: Option<Thread>, env: Env)
  {
    holder.Some? && HoldsEntry(holder.value) && !holder.value.SizeCheck? ==>
      var (buf, base) := (holder.value.buf, holder.value.base);
      forall i :: 0 <= i < base && i < |buf| && i < |env.flush| && buf[i] == NEWLINE && !env.flush[i] ==>
        i == base - 1 && Pending(holder)
  }

  ghost predicate FlushedSoFar(g: System)
    requires CallsOk(g.calls)
  {
    NoneRefused(Taken(INIT, g.calls), TakenFlushes(INIT, g.calls)) && HeldFlushed(Holder(g, g.entryMutex), g.env)
  }

  lemma StoreKeepsFlushed(th: Thread, buf: seq<byte>, base: nat, next: nat, env: Env)
    requires Stores(th, buf, base, next) && HeldFlushed(Some(Scan(buf, base)), env)
    ensures HeldFlushed(Some(th), env)
  {
    assert forall i :: base <= i < next - 1 ==> buf[i] == buf[base..next - 1][i - base];
  }

  lemma ScanKeepsFlushed(g: System, t: Tid, c: Choice, h: System)
    requires Steps(g, t, c, h) && g.threads[t].Scan? && HeldFlushed(Holder(g, g.entryMutex), g.env)
    ensures h.calls == g.calls && HeldFlushed(Holder(h, h.entryMutex), h.env)
  {
    hide OrderOk, StageOk, SerialOk, RingHeld, Explained, LineEnd;
    LocksAfter(g, h, t, h.threads[t]);
    var buf, base := g.threads[t].buf, g.threads[t].base;
    if base < |buf| && (g.block || !c.NoBlock?) {
      hide HeldFlushed;
      var next := SegmentEnd(buf, base);
      ScanSegment(buf, base, next);
      StoreKeepsFlushed(h.threads[t], buf, base, next, g.env);
    }
  }

  /** A finished write leaves no newline unflushed. */
  lemma UnlockKeepsFlushed(g: System, t: Tid, c: Choice, h: System)
    requires Steps(g, t, c, h) && g.threads[t].WriteUnlock? && FlushedSoFar(g)
    ensures CallsOk(h.calls) && FlushedSoFar(h)
  {
    hide Run, Fed, FirstStall, StageOk, RingHeld, Explained, Taken, TakenFlushes;
    LocksAfter(g, h, t, h.threads[t]);
    var th, n := g.threads[t], |g.calls|;
    assert h.calls == g.calls + [Call(th.buf, g.env)];
    CallTaken(INIT, g.calls, Call(th.buf, g.env));
    HeldNoneRefused(th, g.env);
    hide NoneRefused;
    NoneRefusedConcat(Taken(INIT, g.calls), TakenFlushes(INIT, g.calls), th.buf[..th.base], g.env.flush[..th.base]);
  }

  lemma HeldNoneRefused(th: Thread, env: Env)
    requires th.WriteUnlock? && env.Covers(th.buf) && th.base <= |th.buf| && HeldFlushed(Some(th), env)
    ensures NoneRefused(th.buf[..th.base], env.flush[..th.base])
  {
  }

  lemma FixOutFlushes(g: System, t: Tid, c: Choice, h: System)
    requires Steps(g, t, c, h) && g.threads[t].FixOut? && HeldFlushed(Holder(g, g.entryMutex), g.env)
    ensures h.calls == g.calls && HeldFlushed(Holder(h, h.entryMutex), h.env)
  {
    hide OrderOk, RingHeld, Explained, Run;
    LocksAfter(g, h, t, h.threads[t]);
  }

  /** Other steps of the holder leave its place and what it has met as they were. */
  lemma HolderKeepsFlushed(g: System, t: Tid, c: Choice, h: System)
    requires Steps(g, t, c, h) && HeldFlushed(Holder(g, g.entryMutex), g.env)
    requires g.threads[t].WantFlush? ==> !c.Signal?
    requires var th := g.threads[t];
             th.WantFlush? || th.PutSlot? || th.MoveIn? || th.DropBlock? || th.ClearPtr? || th.ClearEnd?
             || th.FlushUnlock?
    ensures h.calls == g.calls && HeldFlushed(Holder(h, h.entryMutex), h.env)
  {
    hide Next, OrderOk, StageOk, SerialOk, RingHeld, Explained;
    HolderFrame(g, t, c, h);
    LocksAfter(g, h, t, h.threads[t]);
  }

  /** Where such a step leaves the holder. */
  lemma HolderFrame(g: System, t: Tid, c: Choice, h: System)
    requires t < |g.threads| && Next(g, t, c) == Some(h)
    requires g.threads[t].WantFlush? ==> !c.Signal?
    requires var th := g.threads[t];
             th.WantFlush? || th.PutSlot? || th.MoveIn? || th.DropBlock? || th.ClearPtr? || th.ClearEnd?
             || th.FlushUnlock?
    ensures h.calls == g.calls && h.env == g.env && h.entryMutex == g.entryMutex && t < |h.threads|
    ensures h.threads == g.threads[t := h.threads[t]] && HoldsEntry(h.threads[t]) && !h.threads[t].SizeCheck?
    ensures h.threads[t].buf == g.threads[t].buf && h.threads[t].base == g.threads[t].base
    ensures Pending(Some(g.threads[t])) ==> Pending(Some(h.threads[t]))
    ensures HoldsBuff(h.threads[t]) <==> !g.threads[t].FlushUnlock?
    ensures g.threads[t].WantFlush? ==> g.buffMutex == None
    ensures h.buffMutex == if g.threads[t].WantFlush? then Some(t)
                           else if g.threads[t].FlushUnlock? then None else g.buffMutex
  {
    hide Ring<seq<byte>>.Advance;
  }

  lemma StarterKeepsFlushed(g: System, t: Tid, c: Choice, h: System)
    requires Steps(g, t, c, h) && HeldFlushed(Holder(g, g.entryMutex), g.env)
    requires g.threads[t].WriteStart? || g.threads[t].SizeCheck?
    ensures h.calls == g.calls && HeldFlushed(Holder(h, h.entryMutex), h.env)
  {
    hide OrderOk, StageOk, SerialOk, RingHeld, Explained;
    LocksAfter(g, h, t, h.threads[t]);
  }

  lemma OthersKeepFlushed(g: System, t: Tid, c: Choice, h: System)
    requires Steps(g, t, c, h) && !IsWriting(g.threads[t])
    ensures h.calls == g.calls && h.env == g.env && Holder(h, h.entryMutex) == Holder(g, g.entryMutex)
  {
    hide Next, OrderOk, StageOk, SerialOk, RingHeld, Explained;
    StepModest(g, t, c, h);
  }

  lemma StepKeepsFlushed(g: System, t: Tid, c: Choice, h: System)
    requires Steps(g, t, c, h) && FlushedSoFar(g)
    requires g.threads[t].WantFlush? ==> !c.Signal?
    ensures CallsOk(h.calls) && FlushedSoFar(h)
  {
    var th := g.threads[t];
    hide Inv, Next, HeldFlushed, Run, FirstStall;
    if th.Scan? {
      ScanKeepsFlushed(g, t, c, h);
    } else if th.FixOut? {
      FixOutFlushes(g, t, c, h);
    } else if th.WriteUnlock? {
      UnlockKeepsFlushed(g, t, c, h);
    } else if th.WriteStart? || th.SizeCheck? {
      StarterKeepsFlushed(g, t, c, h);
    } else if HoldsEntry(th) {
      HolderKeepsFlushed(g, t, c, h);
    } else {
      OthersKeepFlushed(g, t, c, h);
    }
  }

  /** No wait of FlushPartial for buffMutex is interrupted. */
  ghost predicate NoFlushInterrupted(threads: seq<Thread>, sched: Schedule)
  {
    forall i :: 0 <= i < |sched| ==> !InterruptsFlush(Exec(Start(threads), sched[..i]), sched[i])
  }

  predicate InterruptsFlush(g: System, step: (Tid, Choice))
  {
    step.0 < |g.threads| && g.threads[step.0].WantFlush? && step.1.Signal?
  }

  lemma {:induction false} AllFlushed(threads: seq<Thread>, sched: Schedule)
    requires AllStarting(threads) && NoFlushInterrupted(threads, sched)
    ensures var g := Exec(Start(threads), sched); CallsOk(g.calls) && FlushedSoFar(g)
  {
    hide Inv, Next, FlushedSoFar, InterruptsFlush;
    if sched == [] {
      NothingFlushed(threads);
    } else {
      var n := |sched| - 1;
      assert forall i :: 0 <= i < n ==> sched[..n][..i] == sched[..i];
      AllFlushed(threads, sched[..n]);
      ReachableInv(threads, sched[..n]);
      var g := Exec(Start(threads), sched[..n]);
      var (t, c) := sched[n];
      assert !InterruptsFlush(g, sched[n]);
      if t < |g.threads| && Next(g, t, c).Some? {
        NotInterrupted(g, t, c);
        StepKeepsFlushed(g, t, c, Next(g, t, c).value);
      }
    }
  }

  lemma NotInterrupted(g: System, t: Tid, c: Choice)
    requires t < |g.threads| && !InterruptsFlush(g, (t, c))
    ensures g.threads[t].WantFlush? ==> !c.Signal?
  {
  }

  lemma NothingFlushed(threads: seq<Thread>)
    ensures CallsOk(Start(threads).calls) && FlushedSoFar(Start(threads))
  {
  }

  /** Writers, readers and seekers in any number, any interleaving, and any failures: whenever no commit is
      under way, every entry is one of the accepted lines exactly if the flush at each accepted newline went
      through, and the ring is the last ten of them exactly if those at the last eleven did. */
  lemma LinesConcurrently(threads: seq<Thread>, sched: Schedule)
    requires AllStarting(threads)
    ensures var g := Exec(Start(threads), sched);
            CallsOk(g.calls) && |FlushesMet(g)| == |AcceptedBytes(g)| && (!MidCommit(g) ==>
              var w, f := AcceptedBytes(g), FlushesMet(g);
              && g.ring.Valid([])
              && (g.evicted + g.ring.Queue() == LinesOf(w) && g.staged == RestOf(w) <==> NoneRefused(w, f))
              && (g.ring.Queue() == Window(LinesOf(w)) && g.staged == RestOf(w) <==>
                    RecentGranted(w, f, CAPACITY + 1)))
  {
    var g := Exec(Start(threads), sched);
    SafeAtEveryMoment(threads, sched);
    ReachableInv(threads, sched);
    SerialFeeds(g);
    hide Inv, Serial, AcceptedBytes, FlushesMet, MidCommit, RecentGranted, NoneRefused, LinesOf, RestOf, Exec, Flat;
    StreamRefinement(AcceptedBytes(g), FlushesMet(g));
  }

  /** So as long as no flush has been interrupted, whatever else has, the ring is the last ten lines whenever
      no line is on its way into it. */
  lemma LastTenLinesConcurrently(threads: seq<Thread>, sched: Schedule)
    requires AllStarting(threads) && NoFlushInterrupted(threads, sched)
    ensures var g := Exec(Start(threads), sched);
            CallsOk(g.calls) && (!MidCommit(g) && !Pending(Holder(g, g.entryMutex)) ==>
              && g.ring.Valid([])
              && g.ring.Queue() == Window(LinesOf(AcceptedBytes(g))) && g.staged == RestOf(AcceptedBytes(g))
              && g.evicted + g.ring.Queue() == LinesOf(AcceptedBytes(g)))
  {
    var g := Exec(Start(threads), sched);
    AllFlushed(threads, sched);
    ReachableInv(threads, sched);
    LinesConcurrently(threads, sched);
    if !MidCommit(g) && !Pending(Holder(g, g.entryMutex)) {
      NoneUnflushed(g);
      hide Inv, Serial, AcceptedBytes, FlushesMet, MidCommit, LinesOf, RestOf, Exec;
    }
  }

  lemma NoneUnflushed(g: System)
    requires Inv(g) && FlushedSoFar(g) && !Pending(Holder(g, g.entryMutex))
    requires |FlushesMet(g)| == |AcceptedBytes(g)|
    ensures NoneRefused(AcceptedBytes(g), FlushesMet(g))
  {
    hide Run, FeedAll, FirstStall, RingHeld, Explained, Locks, Taken, TakenFlushes;
    var p := HeldPrefix(Holder(g, g.entryMutex));
    var f := g.env.flush[..Min(|p|, |g.env.flush|)];
    NoneRefusedConcat(Taken(INIT, g.calls), TakenFlushes(INIT, g.calls), p, f);
  }

  // ---- Progress ----

  /** Some thread that has not finished can take a step without being interrupted. */
  ghost predicate CanMove(g: System)
  {
    exists t: Tid :: t < |g.threads| && !IsDone(g.threads[t]) && Next(g, t, Go).Some?
  }

  lemma HolderMoves(g: System, t: Tid)
    requires Inv(g) && t < |g.threads|
    requires HoldsBuff(g.threads[t]) || (HoldsEntry(g.threads[t]) && g.buffMutex == None)
    ensures Next(g, t, Go).Some? && !IsDone(g.threads[t])
  {
    hide Next;
    if g.threads[t].PutSlot? { InsertRoom(g, t); }
    NeverStuck(g, t);
  }

  lemma InsertRoom(g: System, t: Tid)
    requires Inv(g) && t < |g.threads| && g.threads[t].PutSlot?
    ensures g.ring.inOffs < |g.ring.slots|
  {
    hide SerialOk, OrderOk, StageOk, Explained, RingOk;
    assert Holder(g, g.buffMutex) == Some(g.threads[t]);
    RingRoom(g.ring, g.commits);
  }

  /** A call under way waits for nothing but a mutex. */
  lemma NeverStuck(g: System, t: Tid)
    requires t < |g.threads| && (HoldsBuff(g.threads[t]) || HoldsEntry(g.threads[t]))
    requires g.threads[t].WantFlush? ==> g.buffMutex == None
    requires g.threads[t].PutSlot? ==> g.ring.inOffs < |g.ring.slots|
    ensures Next(g, t, Go).Some? && !IsDone(g.threads[t])
  {
    hide StoreSegment, ReadRound, SeekRound, LlseekTarget, Copied, SlotAt, To, FlushedAt, Untouched, ActualPos;
  }

  /** entryMutex is always taken before buffMutex, so while any thread is unfinished some thread can move. */
  lemma NoDeadlock(threads: seq<Thread>, sched: Schedule)
    requires AllStarting(threads)
    ensures var g := Exec(Start(threads), sched);
            (exists u :: 0 <= u < |g.threads| && !IsDone(g.threads[u])) ==> CanMove(g)
  {
    ReachableInv(threads, sched);
    var g := Exec(Start(threads), sched);
    if u :| 0 <= u < |g.threads| && !IsDone(g.threads[u]) { SomeoneMoves(g, u); }
  }

  lemma SomeoneMoves(g: System, u: Tid)
    requires Inv(g) && u < |g.threads| && !IsDone(g.threads[u])
    ensures CanMove(g)
  {
    var t := if g.buffMutex.Some? then g.buffMutex.value else if g.entryMutex.Some? then g.entryMutex.value else u;
    if g.buffMutex.Some? || g.entryMutex.Some? {
      HolderMoves(g, t);
    } else {
      assert !HoldsEntry(g.threads[u]) && !HoldsBuff(g.threads[u]);
    }
    assert t < |g.threads| && !IsDone(g.threads[t]) && Next(g, t, Go).Some?;
  }

  /** A call that has returned holds nothing, and when all have returned both mutexes are free. */
  lemma ReturnsUnlocked(threads: seq<Thread>, sched: Schedule)
    requires AllStarting(threads)
    ensures var g := Exec(Start(threads), sched);
            && (forall u :: 0 <= u < |g.threads| && IsDone(g.threads[u]) ==>
                  g.entryMutex != Some(u) && g.buffMutex != Some(u))
            && ((forall u :: 0 <= u < |g.threads| ==> IsDone(g.threads[u])) ==>
                  g.entryMutex == None && g.buffMutex == None && |g.calls| == |g.acquired|)
  {
    hide Exec, SerialOk, StageOk, RingHeld, Explained;
    ReachableInv(threads, sched);
  }

  /** An upper bound on the steps a thread has left. */
  function Left(th: Thread): nat
  {
    match th
    case WriteStart(buf) => 10 * |buf| + 15
    case SizeCheck(buf) => 10 * |buf| + 14
    case Scan(buf, base) => Todo(buf, base) + 2
    case WantFlush(buf, base) => Todo(buf, base) + 11
    case PutSlot(buf, base) => Todo(buf, base) + 10
    case MoveIn(buf, base, _, _) => Todo(buf, base) + 9
    case FixOut(buf, base, _, _) => Todo(buf, base) + 8
    case DropBlock(buf, base, _) => Todo(buf, base) + 7
    case ClearPtr(buf, base) => Todo(buf, base) + 6
    case ClearEnd(buf, base) => Todo(buf, base) + 5
    case FlushUnlock(buf, base) => Todo(buf, base) + 4
    case WriteUnlock(_, _, _) => 1
    case ReadStart(_, _) => 15
    case ReadPos(_, _) => 14
    case ReadScan(_, _, index, _) => if index <= CAPACITY then 13 - index else 2
    case ReadUnlock(_, _, _) => 1
    case SeekStart(_, _) => 15
    case SeekScan(_, _, index, _) => if index <= CAPACITY then 13 - index else 2
    case SeekUnlock(_, _, _) => 1
    case LseekStart(_, _) => 15
    case LseekScan(_, _, index, _) => if index <= CAPACITY then 13 - index else 3
    case LseekRead(_, _, _) => 2
    case LseekUnlock(_, _, _, _) => 1
    case ReleaseStart => 1
    case _ => 0
  }

  function Todo(buf: seq<byte>, base: nat): nat { if base <= |buf| then 10 * (|buf| - base) else 0 }

  function LeftAll(threads: seq<Thread>): nat
  {
    if threads == [] then 0 else Left(threads[0]) + LeftAll(threads[1..])
  }

  lemma {:induction false} LeftUpdate(threads: seq<Thread>, t: Tid, th: Thread)
    requires t < |threads|
    ensures LeftAll(threads[t := th]) == LeftAll(threads) - Left(threads[t]) + Left(th)
  {
    if t > 0 {
      LeftUpdate(threads[1..], t - 1, th);
      assert threads[t := th][1..] == threads[1..][t - 1 := th];
    } else {
      assert threads[t := th][1..] == threads[1..];
    }
  }

  /** What the invariant says about a thread's place in its loops. */
  predicate InRange(th: Thread)
  {
    && (th.Scan? ==> th.base <= |th.buf|)
    && (th.ReadScan? ==> th.index <= CAPACITY)
    && (th.SeekScan? ==> th.index <= CAPACITY)
    && (th.LseekScan? ==> th.index <= CAPACITY)
  }

  lemma PlacesInRange(g: System, t: Tid)
    requires Inv(g) && t < |g.threads|
    ensures InRange(g.threads[t])
  {
    var th := g.threads[t];
    if HoldsEntry(th) { assert Holder(g, g.entryMutex) == Some(th); }
    if HoldsBuff(th) { assert Holder(g, g.buffMutex) == Some(th); }
  }

  /** How far a seek will sum up. */
  lemma CountInRange(g: System, t: Tid)
    requires Inv(g) && t < |g.threads| && (g.threads[t].SeekScan? || g.threads[t].LseekScan?)
    ensures g.ring.Count() <= CAPACITY
  {
    assert Holder(g, g.buffMutex) == Some(g.threads[t]);
  }

  /** Only the moving thread changes place, to one with less left. */
  ghost predicate Shrinks(g: System, t: Tid, h: System)
    requires t < |g.threads|
  {
    && |h.threads| == |g.threads|
    && h.threads == g.threads[t := h.threads[t]]
    && Left(h.threads[t]) < Left(g.threads[t])
  }

  lemma ScanShrinks(g: System, t: Tid, c: Choice, h: System)
    requires t < |g.threads| && g.threads[t].Scan? && InRange(g.threads[t]) && Next(g, t, c) == Some(h)
    ensures Shrinks(g, t, h)
  {
    var th := g.threads[t];
    if th.base < |th.buf| {
      ScanSegment(th.buf, th.base, SegmentEnd(th.buf, th.base));
    }
  }

  lemma StartShrinks(g: System, t: Tid, c: Choice, h: System)
    requires t < |g.threads| && Next(g, t, c) == Some(h)
    requires var th := g.threads[t]; th.WriteStart? || th.SizeCheck? || th.WantFlush? || th.PutSlot? || th.MoveIn?
    ensures Shrinks(g, t, h)
  {
  }

  lemma CommitShrinks(g: System, t: Tid, c: Choice, h: System)
    requires t < |g.threads| && Next(g, t, c) == Some(h)
    requires var th := g.threads[t];
             th.FixOut? || th.DropBlock? || th.ClearPtr? || th.ClearEnd? || th.FlushUnlock? || th.WriteUnlock?
    ensures Shrinks(g, t, h)
  {
  }

  lemma ReaderShrinks(g: System, t: Tid, c: Choice, h: System)
    requires t < |g.threads| && Next(g, t, c) == Some(h) && InRange(g.threads[t])
    requires var th := g.threads[t]; th.ReadStart? || th.ReadPos? || th.ReadScan? || th.ReadUnlock?
    ensures Shrinks(g, t, h)
  {
  }

  lemma SeekerShrinks(g: System, t: Tid, c: Choice, h: System)
    requires t < |g.threads| && Next(g, t, c) == Some(h) && InRange(g.threads[t])
    requires var th := g.threads[t]; th.SeekStart? || th.SeekScan? || th.SeekUnlock? || th.ReleaseStart?
    requires g.threads[t].SeekScan? ==> g.ring.Count() <= CAPACITY
    ensures Shrinks(g, t, h)
  {
    hide Ring<seq<byte>>.Count;
  }

  lemma LseekerShrinks(g: System, t: Tid, c: Choice, h: System)
    requires t < |g.threads| && Next(g, t, c) == Some(h) && InRange(g.threads[t])
    requires var th := g.threads[t]; th.LseekStart? || th.LseekScan? || th.LseekRead? || th.LseekUnlock?
    requires g.threads[t].LseekScan? ==> g.ring.Count() <= CAPACITY
    ensures Shrinks(g, t, h)
  {
    hide Ring<seq<byte>>.Count, LlseekTarget, SlotAt;
  }

  /** Every step taken, interruptions included, uses up some of what its thread has left. */
  lemma StepShrinks(g: System, t: Tid, c: Choice, h: System)
    requires Steps(g, t, c, h)
    ensures Shrinks(g, t, h)
  {
    hide Inv, Next, Shrinks;
    var th := g.threads[t];
    PlacesInRange(g, t);
    if th.Scan? {
      ScanShrinks(g, t, c, h);
    } else if th.WriteStart? || th.SizeCheck? || th.WantFlush? || th.PutSlot? || th.MoveIn? {
      StartShrinks(g, t, c, h);
    } else if HoldsEntry(th) {
      CommitShrinks(g, t, c, h);
    } else if th.ReadStart? || th.ReadPos? || th.ReadScan? || th.ReadUnlock? {
      ReaderShrinks(g, t, c, h);
    } else if IsDone(th) {
      DoneStays(g, t, c);
    } else if th.SeekStart? || th.SeekScan? || th.SeekUnlock? || th.ReleaseStart? {
      if th.SeekScan? { CountInRange(g, t); }
      SeekerShrinks(g, t, c, h);
    } else {
      if th.LseekScan? { CountInRange(g, t); }
      LseekerShrinks(g, t, c, h);
    }
  }

  /** How many steps of a schedule were taken. */
  function StepsTaken(g: System, sched: Schedule): nat
  {
    if sched == [] then 0
    else
      var h := Exec(g, sched[..|sched| - 1]);
      var (t, c) := sched[|sched| - 1];
      StepsTaken(g, sched[..|sched| - 1]) + if t < |h.threads| && Next(h, t, c).Some? then 1 else 0
  }

  /** No run goes on for ever: under any schedule the steps taken are bounded by what the threads had
      left at the start. */
  lemma {:induction false} RunsAreBounded(threads: seq<Thread>, sched: Schedule)
    requires AllStarting(threads)
    ensures StepsTaken(Start(threads), sched) + LeftAll(Exec(Start(threads), sched).threads) <= LeftAll(threads)
  {
    hide Next, Left, Inv;
    if sched != [] {
      var n := |sched| - 1;
      RunsAreBounded(threads, sched[..n]);
      ReachableInv(threads, sched[..n]);
      var g := Exec(Start(threads), sched[..n]);
      var (t, c) := sched[n];
      if t < |g.threads| && Next(g, t, c).Some? {
        var h := Next(g, t, c).value;
        StepShrinks(g, t, c, h);
        LeftUpdate(g.threads, t, h.threads[t]);
      }
    }
  }

  /** From every reachable state there is a way for all threads to finish, none of them being interrupted
      and no block being refused any more. */
  lemma AllCanFinish(threads: seq<Thread>, sched: Schedule) returns (more: Schedule)
    requires AllStarting(threads)
    ensures forall u :: 0 <= u < |Exec(Start(threads), sched + more).threads| ==>
              IsDone(Exec(Start(threads), sched + more).threads[u])
    ensures forall i :: 0 <= i < |more| ==> more[i].1 == Go
    decreases LeftAll(Exec(Start(threads), sched).threads)
  {
    hide Next, Left, Inv;
    var g := Exec(Start(threads), sched);
    if forall u :: 0 <= u < |g.threads| ==> IsDone(g.threads[u]) {
      more := [];
      assert sched + more == sched;
    } else {
      ReachableInv(threads, sched);
      NoDeadlock(threads, sched);
      var t: Tid :| t < |g.threads| && !IsDone(g.threads[t]) && Next(g, t, Go).Some?;
      var h := Next(g, t, Go).value;
      StepShrinks(g, t, Go, h);
      LeftUpdate(g.threads, t, h.threads[t]);
      assert (sched + [(t, Go)])[..|sched|] == sched;
      var rest := AllCanFinish(threads, sched + [(t, Go)]);
      more := [(t, Go)] + rest;
      assert sched + more == sched + [(t, Go)] + rest;
    }
  }
}
