/** The two mutexes: any number of writers, readers and seekers on one device, interleaved one
    assignment at a time wherever two threads could get in each other's way. */
module Protocol {
  import opened Prelude
  import opened Positions
  import opened Rings
  import opened Lines
  import opened Stream
  import opened Content
  import opened Runs

  type Tid = nat

  /** Where a thread is in its call. A finished reader or seeker remembers what it saw: seen counts the
      entries committed when it gave buffMutex back. */
  datatype Thread =
    // aesd_write. base: how much of buf has been stored. free: the pointer add_entry will return.
    // was: the ring before the insertion, kept for the proof.
    | WriteStart(buf: seq<byte>)
    | SizeCheck(buf: seq<byte>)
    | Scan(buf: seq<byte>, base: nat)
    | WantFlush(buf: seq<byte>, base: nat)
    | PutSlot(buf: seq<byte>, base: nat)
    | MoveIn(buf: seq<byte>, base: nat, free: seq<byte>, was: Ring<seq<byte>>)
    | FixOut(buf: seq<byte>, base: nat, free: seq<byte>, was: Ring<seq<byte>>)
    | DropBlock(buf: seq<byte>, base: nat, free: seq<byte>)
    | ClearPtr(buf: seq<byte>, base: nat)
    | ClearEnd(buf: seq<byte>, base: nat)
    | FlushUnlock(buf: seq<byte>, base: nat)
    | WriteUnlock(buf: seq<byte>, base: nat, ret: Ret)
    // aesd_read
    | ReadStart(fPos: loff, count: nat)
    | ReadPos(fPos: loff, count: nat)
    | ReadScan(pos: nat, count: nat, index: nat, passed: nat)
    | ReadUnlock(pos: nat, count: nat, data: seq<byte>)
    | ReadDone(pos: nat, count: nat, uncopied: nat, data: seq<byte>, seen: nat)
    // aesd_ioctl
    | SeekStart(cmd: nat, off: nat)
    | SeekScan(cmd: nat, off: nat, index: nat, sum: nat)
    | SeekUnlock(cmd: nat, off: nat, target: Option<nat>)
    | SeekDone(cmd: nat, off: nat, target: Option<nat>, seen: nat)
    // aesd_llseek. goal: the position it sets. back: the position it then reads back.
    | LseekStart(dist: loff, whence: Whence)
    | LseekScan(dist: loff, whence: Whence, index: nat, sum: nat)
    | LseekRead(dist: loff, whence: Whence, goal: loff)
    | LseekUnlock(dist: loff, whence: Whence, goal: loff, back: loff)
    | LseekDone(dist: loff, whence: Whence, goal: loff, back: loff, seen: nat)
    // aesd_release
    | ReleaseStart
    // Calls that have returned. at: which of the writes that obtained entryMutex this one was.
    | WriteDone(ret: Ret, at: nat)
    | Finished(ret: Ret)

  /** Shared memory, and what has happened so far. A slot or the staging pointer is modelled by the bytes
      it stands for; a slot holding [] is unused.
      block, staged: whether entry.buffPtr is set, and the bytes up to entry.endIdx.
      evicted: the blocks freed. commits: every entry ever put in the ring.
      calls: the finished writes, in the order they obtained entryMutex, and what each of them met.
      env: what the current holder has met so far. acquired: the buffers in the order of acquisition. */
  datatype System = System(
    threads: seq<Thread>,
    entryMutex: Option<Tid>,
    buffMutex: Option<Tid>,
    ring: Ring<seq<byte>>,
    block: bool,
    staged: seq<byte>,
    lseekPos: loff,
    evicted: seq<seq<byte>>,
    commits: seq<seq<byte>>,
    calls: seq<Call>,
    env: Env,
    acquired: seq<seq<byte>>)

  /** Go: the step succeeds. Signal: a wait for a mutex is interrupted. NoBlock: kmalloc fails.
      Fault: copy_to_user leaves some bytes uncopied. */
  datatype Choice = Go | Signal | NoBlock | Fault(uncopied: nat)

  predicate IsDone(th: Thread) { th.WriteDone? || th.ReadDone? || th.SeekDone? || th.LseekDone? || th.Finished? }

  predicate HoldsEntry(th: Thread)
  {
    th.SizeCheck? || th.Scan? || th.WantFlush? || th.PutSlot? || th.MoveIn? || th.FixOut? || th.DropBlock?
    || th.ClearPtr? || th.ClearEnd? || th.FlushUnlock? || th.WriteUnlock?
  }

  predicate HoldsBuff(th: Thread)
  {
    th.PutSlot? || th.MoveIn? || th.FixOut? || th.DropBlock? || th.ClearPtr? || th.ClearEnd? || th.FlushUnlock?
    || th.ReadPos? || th.ReadScan? || th.ReadUnlock? || th.SeekScan? || th.SeekUnlock?
    || th.LseekScan? || th.LseekRead? || th.LseekUnlock?
  }

  function Start(threads: seq<Thread>): System
  {
    System(threads, None, None, Empty([]), false, [], 0, [], [], [], Untouched([]), [])
  }

  predicate Starting(th: Thread)
  {
    th.WriteStart? || th.ReadStart? || th.SeekStart? || th.LseekStart? || th.ReleaseStart?
  }

  /** A write that has met nothing yet: no flush has gone through, no block has been missing. */
  function Untouched(buf: seq<byte>): Env
  {
    Env(true, seq(|buf|, _ => false), seq(|buf|, _ => true))
  }

  /** The slot k places after the oldest entry. */
  function SlotAt(r: Ring<seq<byte>>, k: nat): seq<byte>
  {
    if |r.slots| == CAPACITY then r.slots[(r.outOffs + k) % CAPACITY] else []
  }

  /** One step of thread t, None where it must wait for a mutex. */
  function Next(g: System, t: Tid, c: Choice): Option<System>
    requires t < |g.threads|
  {
    var th := g.threads[t];
    match th
    case WriteStart(buf) =>
      if c.Signal? then Some(To(g, t, Finished(Err(ERESTARTSYS))))
      else if g.entryMutex.Some? then None
      else Some(To(g, t, SizeCheck(buf)).(entryMutex := Some(t), acquired := g.acquired + [buf], env := Untouched(buf)))
    case SizeCheck(buf) =>
      if |g.staged| + |buf| > KMALLOC_MAX_SIZE then Some(To(g, t, WriteUnlock(buf, 0, Err(ENOMEM))))
      else Some(To(g, t, Scan(buf, 0)))
    case Scan(buf, base) => Some(StoreSegment(g, t, c, buf, base))
    case WantFlush(buf, base) =>
      if c.Signal? then Some(To(g, t, Scan(buf, base)))
      else if g.buffMutex.Some? then None
      else Some(To(g, t, PutSlot(buf, base)).(buffMutex := Some(t)))
    case PutSlot(buf, base) =>
      if g.ring.inOffs >= |g.ring.slots| then None
      else Some(To(g, t, MoveIn(buf, base, g.ring.slots[g.ring.inOffs], g.ring)).(ring := g.ring.StoreSlot(g.staged)))
    case MoveIn(buf, base, free, was) =>
      Some(To(g, t, FixOut(buf, base, free, was)).(ring := g.ring.Advance()))
    case FixOut(buf, base, free, was) =>
      Some(To(g, t, DropBlock(buf, base, free)).(ring := g.ring.Settle(), commits := g.commits + [g.staged],
                                                 env := FlushedAt(g.env, base)))
    case DropBlock(buf, base, free) =>
      Some(To(g, t, ClearPtr(buf, base)).(evicted := g.evicted + if free == [] then [] else [free]))
    case ClearPtr(buf, base) => Some(To(g, t, ClearEnd(buf, base)).(block := false))
    case ClearEnd(buf, base) => Some(To(g, t, FlushUnlock(buf, base)).(staged := []))
    case FlushUnlock(buf, base) => Some(To(g, t, Scan(buf, base)).(buffMutex := None))
    case WriteUnlock(buf, base, ret) =>
      Some(To(g, t, WriteDone(ret, |g.calls|)).(entryMutex := None, calls := g.calls + [Call(buf, g.env)]))
    case ReadStart(fPos, count) =>
      if c.Signal? then Some(To(g, t, Finished(Err(ERESTARTSYS))))
      else if g.buffMutex.Some? then None
      else Some(To(g, t, ReadPos(fPos, count)).(buffMutex := Some(t)))
    case ReadPos(fPos, count) =>
      var pos := ActualPos(fPos, g.lseekPos);
      if g.ring.inOffs == g.ring.outOffs && !g.ring.full then Some(To(g, t, ReadUnlock(pos, count, [])))
      else Some(To(g, t, ReadScan(pos, count, 0, 0)))
    case ReadScan(pos, count, index, passed) => Some(To(g, t, ReadRound(g.ring, pos, count, index, passed)))
    case ReadUnlock(pos, count, data) =>
      var uncopied := if c.Fault? then c.uncopied else 0;
      Some(To(g, t, ReadDone(pos, count, uncopied, Copied(data, uncopied), |g.commits|)).(buffMutex := None))
    case SeekStart(cmd, off) =>
      if c.Signal? then Some(To(g, t, Finished(Err(ERESTARTSYS))))
      else if g.buffMutex.Some? then None
      else Some(To(g, t, SeekScan(cmd, off, 0, 0)).(buffMutex := Some(t)))
    case SeekScan(cmd, off, index, sum) =>
      var th' := SeekRound(g.ring, cmd, off, index, sum);
      var moves := th'.SeekUnlock? && th'.target.Some?;
      Some(To(g, t, th').(lseekPos := if moves then ToLoff(th'.target.value) else g.lseekPos))
    case SeekUnlock(cmd, off, target) =>
      Some(To(g, t, SeekDone(cmd, off, target, |g.commits|)).(buffMutex := None))
    case LseekStart(off, whence) =>
      if c.Signal? then Some(To(g, t, Finished(Err(ERESTARTSYS))))
      else if g.buffMutex.Some? then None
      else Some(To(g, t, LseekScan(off, whence, 0, 0)).(buffMutex := Some(t)))
    case LseekScan(off, whence, index, sum) =>
      if whence.SEEK_END? && index < g.ring.Count() then
        Some(To(g, t, LseekScan(off, whence, index + 1, sum + |SlotAt(g.ring, index)|)))
      else
        var goal := LlseekTarget(sum, g.lseekPos, off, whence);
        Some(To(g, t, LseekRead(off, whence, goal)).(lseekPos := goal))
    case LseekRead(off, whence, goal) => Some(To(g, t, LseekUnlock(off, whence, goal, g.lseekPos)))
    case LseekUnlock(off, whence, goal, back) =>
      Some(To(g, t, LseekDone(off, whence, goal, back, |g.commits|)).(buffMutex := None))
    case ReleaseStart => Some(To(g, t, Finished(Ok(0))).(lseekPos := 0))
    case _ => None
  }

  /** One round of the lookup loop, or what follows it. */
  function ReadRound(ring: Ring<seq<byte>>, pos: nat, count: nat, index: nat, passed: nat): (th: Thread)
    ensures th.ReadScan? || th.ReadUnlock?
  {
    if passed <= pos && index < CAPACITY then ReadScan(pos, count, index + 1, passed + |SlotAt(ring, index)|)
    else if passed <= pos then ReadUnlock(pos, count, [])
    else
      var entry := SlotAt(ring, if index == 0 then 0 else index - 1);
      var off := pos - (passed - |entry|);
      ReadUnlock(pos, count, if 0 <= off <= |entry| then entry[off..off + Min(|entry| - off, count)] else [])
  }

  /** One round of the loop that sums up the entries before a seek's command, or what follows it. */
  function SeekRound(ring: Ring<seq<byte>>, cmd: nat, off: nat, index: nat, sum: nat): (th: Thread)
    ensures th.SeekScan? || th.SeekUnlock?
  {
    if cmd > ring.Count() then SeekUnlock(cmd, off, None)
    else if index < cmd then SeekScan(cmd, off, index + 1, sum + |SlotAt(ring, index)|)
    else if |SlotAt(ring, cmd)| < off then SeekUnlock(cmd, off, None)
    else SeekUnlock(cmd, off, Some(sum + off))
  }

  function To(g: System, t: Tid, th: Thread): System
    requires t < |g.threads|
  {
    g.(threads := g.threads[t := th])
  }

  /** The end of the segment that starts at base: past its newline, or the end of buf. */
  function SegmentEnd(buf: seq<byte>, base: nat): (next: nat)
    requires base < |buf|
    ensures base < next <= |buf|
  {
    if NEWLINE in buf[base..] then base + LineEnd(buf[base..]) else |buf|
  }

  /** One round of aesd_write's scan up to the next newline, or its end. Only the holder of entryMutex
      reads or writes the stage, so storing a segment is one step. */
  function StoreSegment(g: System, t: Tid, c: Choice, buf: seq<byte>, base: nat): System
    requires t < |g.threads|
  {
    if base >= |buf| then To(g, t, WriteUnlock(buf, base, Ok(|buf|)))
    else
      var line := NEWLINE in buf[base..];
      if !g.block && c.NoBlock? then
        To(g, t, WriteUnlock(buf, base, if line then Err(ENOMEM) else Ok(|buf|))).(env := MissedAt(g.env, base))
      else
        var next := SegmentEnd(buf, base);
        To(g, t, if line then WantFlush(buf, next) else WriteUnlock(buf, next, Ok(|buf|)))
        .(block := true, staged := g.staged + buf[base..next])
  }

  /** The flush at the newline before base went through. */
  function FlushedAt(env: Env, base: nat): Env
  {
    if 0 < base <= |env.flush| then env.(flush := env.flush[base - 1 := true]) else env
  }

  /** The segment starting at base got no block. */
  function MissedAt(env: Env, base: nat): Env
  {
    if base < |env.alloc| then env.(alloc := env.alloc[base := false]) else env
  }

  /** A schedule says which thread tries to move, and what it meets. A thread that must wait, or has
      finished, stays where it is. */
  type Schedule = seq<(Tid, Choice)>

  function Exec(g: System, sched: Schedule): System
  {
    if sched == [] then g
    else
      var h := Exec(g, sched[..|sched| - 1]);
      var (t, c) := sched[|sched| - 1];
      if t < |h.threads| && Next(h, t, c).Some? then Next(h, t, c).value else h
  }

  // ---- What every reachable state satisfies ----

  /** The entries no longer in the window. */
  function Gone<T>(h: seq<T>): seq<T> { h[..|h| - |Window(h)|] }

  /** The ring as every thread but a committing one finds it: the window of the entries committed. */
  ghost predicate RingOk(r: Ring<seq<byte>>, commits: seq<seq<byte>>)
  {
    r.Valid([]) && r.Queue() == Window(commits) && forall i :: 0 <= i < |commits| ==> commits[i] != []
  }

  ghost predicate Locks(g: System)
  {
    && (g.entryMutex.Some? ==> g.entryMutex.value < |g.threads|)
    && (g.buffMutex.Some? ==> g.buffMutex.value < |g.threads|)
    && forall u :: 0 <= u < |g.threads| ==>
         && (HoldsEntry(g.threads[u]) <==> g.entryMutex == Some(u))
         && (HoldsBuff(g.threads[u]) <==> g.buffMutex == Some(u))
  }

  /** The thread that holds a mutex. */
  function Holder(g: System, m: Option<Tid>): Option<Thread>
  {
    if m.Some? && m.value < |g.threads| then Some(g.threads[m.value]) else None
  }

  /** The part of the current writer's buffer that has been accepted. */
  function HeldPrefix(holder: Option<Thread>): seq<byte>
  {
    if holder.Some? && HoldsEntry(holder.value) && !holder.value.SizeCheck? && holder.value.base <= |holder.value.buf|
    then holder.value.buf[..holder.value.base] else []
  }

  /** Entries of the whole history split into dropped, in the ring, and staged. */
  function Split(commits: seq<seq<byte>>, staged: seq<byte>): State
  {
    State(Gone(commits), Window(commits), staged)
  }

  /** Finished writes and the current one are those that obtained entryMutex, in that order. */
  ghost predicate OrderOk(holder: Option<Thread>, calls: seq<Call>, acquired: seq<seq<byte>>)
  {
    && |acquired| == |calls| + (if holder.Some? then 1 else 0)
    && (forall i :: 0 <= i < |calls| ==> calls[i].buf == acquired[i])
    && (holder.Some? ==> HoldsEntry(holder.value) && holder.value.buf == acquired[|calls|])
  }

  /** The committing thread has put the staged bytes into the ring but not yet cleared the stage. */
  predicate Committed(holder: Option<Thread>)
  {
    holder.Some? && (holder.value.DropBlock? || holder.value.ClearPtr? || holder.value.ClearEnd?)
  }

  /** A line has been staged and its commit is still to come. */
  predicate Pending(holder: Option<Thread>)
  {
    holder.Some? && (holder.value.WantFlush? || holder.value.PutSlot? || holder.value.MoveIn? || holder.value.FixOut?)
  }

  /** How much of the current writer's buffer is still to be stored. */
  function Remaining(holder: Option<Thread>): nat
  {
    if holder.Some? && HoldsEntry(holder.value) && !holder.value.SizeCheck? && !holder.value.WriteUnlock?
       && holder.value.base <= |holder.value.buf|
    then |holder.value.buf| - holder.value.base else 0
  }

  /** The stage as the current writer's place implies it. */
  ghost predicate StageOk(holder: Option<Thread>, block: bool, staged: seq<byte>)
  {
    && (if Committed(holder) then block <==> !holder.value.ClearEnd? else block <==> staged != [])
    && (holder.Some? && holder.value.FlushUnlock? ==> staged == [])
    && (Pending(holder) ==> staged != [])
    && |staged| <= KMALLOC_MAX_SIZE
    && (if Committed(holder) then 0 else |staged|) + Remaining(holder) <= KMALLOC_MAX_SIZE
  }

  /** The bytes that have been accepted but are in no committed entry. */
  function Waiting(holder: Option<Thread>, staged: seq<byte>): seq<byte>
  {
    if Committed(holder) then [] else staged
  }

  ghost predicate CallsOk(calls: seq<Call>) { forall i :: 0 <= i < |calls| ==> calls[i].env.Covers(calls[i].buf) }

  /** Part way through a write that started in state s: now is the state once buf[..base] is accepted. */
  ghost predicate Writing(s: State, buf: seq<byte>, base: nat, env: Env, now: State)
  {
    && base <= |buf| && env.Covers(buf) && env.lock && Fits(s, buf)
    && now == Fed(s, buf, env, base) && NoStallBefore(s, buf, env, base)
    && forall p :: base <= p < |buf| ==> env.alloc[p] && !env.flush[p]
  }

  /** The device is what the finished writes make of it when each is run on its own, one after another in
      lock order, followed by the part of the current write that has been accepted. */
  ghost predicate SerialOk(holder: Option<Thread>, now: State, calls: seq<Call>, env: Env)
    requires CallsOk(calls)
  {
    var s := Run(INIT, calls);
    if holder.None? then now == s
    else if holder.value.SizeCheck? then now == s && env == Untouched(holder.value.buf)
    else if holder.value.WriteUnlock? then
      && env.Covers(holder.value.buf) && env.lock && now == AfterWrite(s, holder.value.buf, env)
      && holder.value.base == Accepted(s, holder.value.buf, env)
      && holder.value.ret == WriteResult(s, holder.value.buf, env)
    else
      HoldsEntry(holder.value) ==>
        && Writing(s, holder.value.buf, holder.value.base, env, now)
        && (Pending(holder) ==> LineWaits(holder.value.buf, holder.value.base, env))
  }

  /** The byte before base is a newline whose flush has not gone through. */
  ghost predicate LineWaits(buf: seq<byte>, base: nat, env: Env)
  {
    0 < base <= |buf| && base <= |env.flush| && buf[base - 1] == NEWLINE && !env.flush[base - 1]
  }

  /** What the holder of buffMutex has made of the ring, or found out about it. */
  ghost predicate RingHeld(holder: Option<Thread>, ring: Ring<seq<byte>>, evicted: seq<seq<byte>>,
                           commits: seq<seq<byte>>, staged: seq<byte>)
  {
    match holder
    case Some(MoveIn(_, _, free, was)) =>
      RingOk(was, commits) && evicted == Gone(commits)
      && free == was.slots[was.inOffs] && ring == was.StoreSlot(staged)
    case Some(FixOut(_, _, free, was)) =>
      RingOk(was, commits) && evicted == Gone(commits)
      && free == was.slots[was.inOffs] && ring == was.StoreSlot(staged).Advance()
    case Some(DropBlock(_, _, free)) =>
      RingOk(ring, commits) && evicted + (if free == [] then [] else [free]) == Gone(commits)
    case _ =>
      RingOk(ring, commits) && evicted == Gone(commits) && (holder.Some? ==> Learnt(holder.value, ring))
  }

  /** What a reader or seeker knows part way through its loop. */
  ghost predicate Learnt(th: Thread, ring: Ring<seq<byte>>)
    requires ring.Valid([])
  {
    match th
    case ReadScan(pos, count, index, passed) =>
      index <= CAPACITY && passed == PrefixSum(SizesOf(ring.Rotated()), index)
      && (index > 0 ==> PrefixSum(SizesOf(ring.Rotated()), index - 1) <= pos)
    case ReadUnlock(pos, count, data) => data == ReadData(ring.Queue(), pos, count)
    case SeekScan(cmd, off, index, sum) =>
      index <= CAPACITY && (cmd <= ring.Count() ==> index <= cmd && sum == PrefixSum(SizesOf(ring.Rotated()), index))
    case SeekUnlock(cmd, off, target) => target == SeekTarget(ring.Queue(), cmd, off)
    case LseekScan(_, _, index, sum) => index <= ring.Count() && sum == PrefixSum(SizesOf(ring.Rotated()), index)
    case _ => true
  }

  /** What a finished call returned is what it would have returned run alone at some moment: a write, in
      its turn among the writes; a read or seek, on the entries committed by then. */
  ghost predicate Explained(th: Thread, commits: seq<seq<byte>>, calls: seq<Call>)
    requires CallsOk(calls)
  {
    match th
    case WriteDone(ret, at) =>
      at < |calls| && ret == WriteResult(Run(INIT, calls[..at]), calls[at].buf, calls[at].env)
    case ReadDone(pos, count, uncopied, data, seen) =>
      seen <= |commits| && data == Copied(ReadData(Window(commits[..seen]), pos, count), uncopied)
    case SeekDone(cmd, off, target, seen) =>
      seen <= |commits| && target == SeekTarget(Window(commits[..seen]), cmd, off)
    case LseekDone(_, _, _, _, seen) => seen <= |commits|
    case _ => true
  }

  ghost predicate Inv(g: System)
  {
    && Locks(g)
    && CallsOk(g.calls)
    && var w := Holder(g, g.entryMutex);
    && OrderOk(w, g.calls, g.acquired)
    && StageOk(w, g.block, g.staged)
    && SerialOk(w, Split(g.commits, Waiting(w, g.staged)), g.calls, g.env)
    && RingHeld(Holder(g, g.buffMutex), g.ring, g.evicted, g.commits, g.staged)
    && forall u :: 0 <= u < |g.threads| ==> Explained(g.threads[u], g.commits, g.calls)
  }
}
