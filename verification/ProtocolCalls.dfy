/** Every call takes effect at one moment between its start and its return, whatever other threads do
    meanwhile. */
module ProtocolCalls {
  import opened Prelude
  import opened Rings
  import opened Lines
  import opened Stream
  import opened Content
  import opened Runs
  import opened Protocol
  import opened ProtocolSteps
  import opened ProtocolProofs
  import opened ProtocolTheorems

  /** The state after the first m steps of a schedule. */
  function Moment(threads: seq<Thread>, sched: Schedule, m: nat): System
    requires m <= |sched|
  {
    Exec(Start(threads), sched[..m])
  }

  /** The last step of a schedule: nobody moves, or one thread does. */
  lemma LastStep(threads: seq<Thread>, sched: Schedule)
    requires sched != []
    ensures var n := |sched| - 1;
            var (g, h, (t, c)) := (Moment(threads, sched, n), Moment(threads, sched, n + 1), sched[n]);
            h == g || (t < |g.threads| && Next(g, t, c) == Some(h))
  {
    hide Next;
    assert sched[..|sched|] == sched;
  }

  /** No commit while a reader or seeker holds buffMutex, and only a close moves the seek position. */
  lemma QuietWhileHeld(g: System, t: Tid, c: Choice, h: System, u: Tid)
    requires Steps(g, t, c, h) && u < |g.threads| && HoldsBuff(g.threads[u]) && !HoldsEntry(g.threads[u])
    ensures h.commits == g.commits
    ensures t != u ==> h.lseekPos == g.lseekPos || h.lseekPos == 0
  {
    StepModest(g, t, c, h);
    hide Next, OrderOk, StageOk, SerialOk, RingHeld, Explained;
  }

  lemma {:induction false} Grows(threads: seq<Thread>, sched: Schedule, m: nat)
    requires m <= |sched|
    ensures var (g, h) := (Moment(threads, sched, m), Exec(Start(threads), sched));
            |g.threads| == |h.threads| == |threads| && g.commits <= h.commits && g.calls <= h.calls
  {
    hide Next;
    assert sched[..|sched|] == sched;
    if sched == [] {
    } else {
      var n := |sched| - 1;
      Grows(threads, sched[..n], if m <= n then m else n);
      assert m <= n ==> sched[..n][..m] == sched[..m];
      LastStep(threads, sched);
      var (g, h) := (Moment(threads, sched, n), Moment(threads, sched, n + 1));
      if h != g { StepModest(g, sched[n].0, sched[n].1, h); }
    }
  }

  /** The thread u of a state, at whatever moment. */
  function ThreadAt(threads: seq<Thread>, sched: Schedule, u: Tid): (th: Thread)
    requires u < |threads|
  {
    var g := Exec(Start(threads), sched);
    if u < |g.threads| then g.threads[u] else threads[u]
  }

  lemma NoneMovedYet(threads: seq<Thread>, u: Tid)
    requires AllStarting(threads) && u < |threads|
    ensures Starting(ThreadAt(threads, [], u))
  {
  }

  /** Between g and h nothing happens, or a step; thread u stays where it is unless the step is its own. */
  ghost predicate StepSeenBy(u: Tid, g: System, step: (Tid, Choice), h: System)
  {
    && u < |g.threads| == |h.threads|
    && (h == g || Steps(g, step.0, step.1, h))
    && ((h != g && step.0 == u) || h.threads[u] == g.threads[u])
  }

  /** A thread's last step, or that of another thread, which leaves it where it was. */
  lemma LastStepOf(threads: seq<Thread>, sched: Schedule, u: Tid)
    requires AllStarting(threads) && sched != [] && u < |threads|
    ensures var n := |sched| - 1;
            StepSeenBy(u, Exec(Start(threads), sched[..n]), sched[n], Exec(Start(threads), sched))
  {
    hide Next, Inv, Modest;
    var n := |sched| - 1;
    Grows(threads, sched[..n], 0);
    ReachableInv(threads, sched[..n]);
    LastStep(threads, sched);
    assert sched[..|sched|] == sched;
    var (g, h) := (Exec(Start(threads), sched[..n]), Exec(Start(threads), sched));
    if h != g {
      StepModest(g, sched[n].0, sched[n].1, h);
      OthersStay(g, sched[n].0, h, u);
    }
  }

  lemma OthersStay(g: System, t: Tid, h: System, u: Tid)
    requires t < |g.threads| && u < |g.threads| && Modest(g, t, h)
    ensures |h.threads| == |g.threads| && (t != u ==> h.threads[u] == g.threads[u])
  {
  }

  // ---- Reads ----

  /** A read that has got as far as th in state h looked the position up in state g. */
  ghost predicate ReadsAt(call: Thread, g: System, u: Tid, th: Thread, h: System)
  {
    && call.ReadStart? && u < |g.threads| && g.threads[u] == ReadPos(call.fPos, call.count)
    && var pos := ActualPos(call.fPos, g.lseekPos);
    match th
    case ReadScan(p, count, _, _) => p == pos && count == call.count && h.commits == g.commits
    case ReadUnlock(p, count, _) => p == pos && count == call.count && h.commits == g.commits
    case ReadDone(p, count, _, _, seen) => p == pos && count == call.count && seen == |g.commits|
    case _ => false
  }

  predicate Reading(th: Thread) { th.ReadScan? || th.ReadUnlock? || th.ReadDone? }

  /** Until it has buffMutex a read only waits. */
  lemma {:induction false} ReadArgs(threads: seq<Thread>, sched: Schedule, u: Tid)
    requires AllStarting(threads) && u < |threads|
    ensures var th := ThreadAt(threads, sched, u);
            && (th.ReadStart? ==> th == threads[u])
            && (th.ReadPos? ==> threads[u] == ReadStart(th.fPos, th.count))
  {
    hide Next, Inv;
    if sched != [] {
      var n := |sched| - 1;
      ReadArgs(threads, sched[..n], u);
      LastStepOf(threads, sched, u);
      var (g, h) := (Exec(Start(threads), sched[..n]), Exec(Start(threads), sched));
      if h != g && sched[n].0 == u { ReadBegins(g, u, sched[n].1, h); }
    }
  }

  lemma ReadBegins(g: System, u: Tid, c: Choice, h: System)
    requires u < |g.threads| && Next(g, u, c) == Some(h)
    ensures u < |h.threads| && !h.threads[u].ReadStart?
    ensures var th := h.threads[u]; th.ReadPos? ==> g.threads[u] == ReadStart(th.fPos, th.count)
  {
    StepModest(g, u, c, h);
    if IsReading(g.threads[u]) { ReadMoves(g, u, c, h); }
    hide Next, Modest;
  }

  /** The steps of a read. */
  lemma ReadMoves(g: System, u: Tid, c: Choice, h: System)
    requires u < |g.threads| && IsReading(g.threads[u]) && Next(g, u, c) == Some(h)
    ensures u < |h.threads| && h.commits == g.commits
    ensures match h.threads[u]
            case ReadPos(fPos, count) => g.threads[u] == ReadStart(fPos, count)
            case ReadScan(pos, count, _, _) => Looks(g.threads[u], g.lseekPos, pos, count)
            case ReadUnlock(pos, count, _) => Looks(g.threads[u], g.lseekPos, pos, count)
            case ReadDone(pos, count, uncopied, data, seen) =>
              && g.threads[u].ReadUnlock? && g.threads[u].pos == pos && g.threads[u].count == count
              && data == Copied(g.threads[u].data, uncopied) && seen == |g.commits|
            case th => th.Finished? && g.threads[u].ReadStart? && c.Signal?
  {
    hide ActualPos, SlotAt;
  }

  /** th is looking for position pos, or is about to. */
  predicate Looks(th: Thread, lseekPos: loff, pos: nat, count: nat)
  {
    match th
    case ReadPos(f, n) => pos == ActualPos(f, lseekPos) && count == n
    case ReadScan(p, n, _, _) => p == pos && n == count
    case _ => false
  }

  /** A moment keeps explaining a read while others move, and through its own steps. */
  lemma ReadKeeps(call: Thread, g: System, u: Tid, g': System, t: Tid, c: Choice, h: System)
    requires Steps(g', t, c, h) && u < |g'.threads| && ReadsAt(call, g, u, g'.threads[u], g')
    requires u < |h.threads| && (t == u ==> Reading(h.threads[u])) && (t != u ==> h.threads[u] == g'.threads[u])
    ensures ReadsAt(call, g, u, h.threads[u], h)
  {
    if HoldsBuff(g'.threads[u]) { QuietWhileHeld(g', t, c, h, u); }
    if t == u {
      StepModest(g', u, c, h);
      ReadMoves(g', u, c, h);
    }
    hide Next, Inv, Modest;
  }

  /** The moment at which a read found out where to read. */
  lemma {:induction false} ReadMoment(threads: seq<Thread>, sched: Schedule, u: Tid) returns (m: nat)
    requires AllStarting(threads) && u < |threads| && Reading(ThreadAt(threads, sched, u))
    ensures m < |sched|
    ensures ReadsAt(threads[u], Moment(threads, sched, m), u, ThreadAt(threads, sched, u), Exec(Start(threads), sched))
    decreases |sched|
  {
    hide Next, Inv, ReadsAt;
    NoneMovedYet(threads, u);
    var n := |sched| - 1;
    LastStepOf(threads, sched, u);
    var (g, h, (t, c)) := (Exec(Start(threads), sched[..n]), Exec(Start(threads), sched), sched[n]);
    if h != g && t == u && g.threads[u].ReadPos? {
      m := n;
      ReadArgs(threads, sched[..n], u);
      ReadStarts(threads[u], g, u, c, h);
    } else {
      if h != g && t == u { StillReading(g, u, c, h); }
      m := ReadMoment(threads, sched[..n], u);
      assert sched[..n][..m] == sched[..m];
      if h != g { ReadKeeps(threads[u], Moment(threads, sched, m), u, g, t, c, h); }
    }
  }

  lemma ReadStarts(call: Thread, g: System, u: Tid, c: Choice, h: System)
    requires u < |g.threads| && g.threads[u].ReadPos? && Next(g, u, c) == Some(h)
    requires call == ReadStart(g.threads[u].fPos, g.threads[u].count)
    ensures u < |h.threads| && ReadsAt(call, g, u, h.threads[u], h)
  {
    StepModest(g, u, c, h);
    ReadMoves(g, u, c, h);
  }

  lemma StillReading(g: System, u: Tid, c: Choice, h: System)
    requires u < |g.threads| && Next(g, u, c) == Some(h) && u < |h.threads| && Reading(h.threads[u])
    requires !g.threads[u].ReadPos?
    ensures Reading(g.threads[u])
  {
    StepModest(g, u, c, h);
    hide Next, Modest;
    if IsReading(g.threads[u]) { ReadMoves(g, u, c, h); }
  }

  /** A read that has returned is one atomic read: there is a moment between its start and its return at which
      no commit was under way and a read run alone, at the position its file and the device then stood at,
      would have delivered the same, but for what could not be copied to the caller. */
  lemma ReadsAreAtomic(threads: seq<Thread>, sched: Schedule, u: Tid) returns (m: nat)
    requires AllStarting(threads) && u < |threads| && ThreadAt(threads, sched, u).ReadDone?
    ensures m < |sched|
    ensures var (g, th, call) := (Moment(threads, sched, m), ThreadAt(threads, sched, u), threads[u]);
            && call.ReadStart? && ThreadAt(threads, sched[..m], u) == ReadPos(call.fPos, call.count)
            && !MidCommit(g) && g.ring.Valid([]) && g.ring.Queue() == Window(g.commits)
            && th.pos == ActualPos(call.fPos, g.lseekPos) && th.seen == |g.commits|
            && th.data == Copied(ReadData(g.ring.Queue(), th.pos, call.count), th.uncopied)
            && th.data <= ReadData(g.ring.Queue(), th.pos, call.count)
            && |th.data| == |ReadData(g.ring.Queue(), th.pos, call.count)|
                            - Min(th.uncopied, |ReadData(g.ring.Queue(), th.pos, call.count)|)
            && SliceAt(Flat(g.ring.Queue()), th.pos, th.data)
  {
    m := ReadMoment(threads, sched, u);
    Grows(threads, sched, m);
    Grows(threads, sched, 0);
    var (g, h) := (Moment(threads, sched, m), Exec(Start(threads), sched));
    hide Next;
    ReadersSeeWholeCommits(threads, sched[..m], u);
    ReachableInv(threads, sched);
    hide Exec, ReadData, ActualPos, Locks, OrderOk, StageOk, SerialOk, RingHeld, MidCommit, SliceAt, Flat, Copied;
    assert Explained(h.threads[u], h.commits, h.calls);
    assert h.commits[..|g.commits|] == g.commits;
    var pos := ActualPos(threads[u].fPos, g.lseekPos);
    ReadMeaning(g.ring.Queue(), pos, threads[u].count);
    CopiedIs(ReadData(g.ring.Queue(), pos, threads[u].count), h.threads[u].uncopied);
    CopiedSlice(Flat(g.ring.Queue()), pos, ReadData(g.ring.Queue(), pos, threads[u].count), h.threads[u].uncopied);
  }

  lemma CopiedSlice(content: seq<byte>, pos: nat, data: seq<byte>, uncopied: nat)
    requires SliceAt(content, pos, data)
    ensures SliceAt(content, pos, Copied(data, uncopied))
  {
    var n := |Copied(data, uncopied)|;
    if n > 0 { assert content[pos..pos + |data|][..n] == content[pos..pos + n]; }
  }

  // ---- Seeks ----

  /** Between these two states a seek to a target, or a rejected one, took effect. */
  predicate Landed(g: System, g': System, target: Option<nat>)
  {
    g'.lseekPos == if target.Some? then ToLoff(target.value) else g.lseekPos
  }

  predicate Sought(th: Thread) { th.SeekUnlock? || th.SeekDone? }

  /** A seek that has got as far as th in state h took effect between g and g'. */
  ghost predicate SeeksAt(call: Thread, g: System, g': System, u: Tid, th: Thread, h: System)
  {
    && call.SeekStart? && u < |g.threads| && g.threads[u].SeekScan?
    && match th
       case SeekUnlock(cmd, off, target) =>
         call == SeekStart(cmd, off) && h.commits == g.commits && Landed(g, g', target)
       case SeekDone(cmd, off, target, seen) =>
         call == SeekStart(cmd, off) && seen == |g.commits| && Landed(g, g', target)
       case _ => false
  }

  /** The steps of a seek. */
  lemma SeekMoves(g: System, u: Tid, c: Choice, h: System)
    requires u < |g.threads| && IsSeeking(g.threads[u]) && Next(g, u, c) == Some(h)
    ensures u < |h.threads| && h.commits == g.commits
    ensures match h.threads[u]
            case SeekScan(cmd, off, _, _) => SeeksFor(g.threads[u], cmd, off)
            case SeekUnlock(cmd, off, target) =>
              SeeksFor(g.threads[u], cmd, off) && g.threads[u].SeekScan? && Landed(g, h, target)
            case SeekDone(cmd, off, target, seen) =>
              g.threads[u] == SeekUnlock(cmd, off, target) && seen == |g.commits|
            case th => th.Finished? && g.threads[u].SeekStart? && c.Signal?
  {
    hide SlotAt, ToLoff;
  }

  predicate SeeksFor(th: Thread, cmd: nat, off: nat)
  {
    match th
    case SeekStart(c, o) => c == cmd && o == off
    case SeekScan(c, o, _, _) => c == cmd && o == off
    case _ => false
  }

  lemma {:induction false} SeekArgs(threads: seq<Thread>, sched: Schedule, u: Tid)
    requires AllStarting(threads) && u < |threads|
    ensures var th := ThreadAt(threads, sched, u);
            && (th.SeekStart? ==> th == threads[u])
            && (th.SeekScan? ==> threads[u] == SeekStart(th.cmd, th.off))
  {
    hide Next, Inv;
    if sched == [] {
      NoneMovedYet(threads, u);
    } else {
      var n := |sched| - 1;
      SeekArgs(threads, sched[..n], u);
      LastStepOf(threads, sched, u);
      var (g, h) := (Exec(Start(threads), sched[..n]), Exec(Start(threads), sched));
      if h != g && sched[n].0 == u { SeekGoesOn(g, u, sched[n].1, h); }
    }
  }

  lemma SeekGoesOn(g: System, u: Tid, c: Choice, h: System)
    requires u < |g.threads| && Next(g, u, c) == Some(h)
    ensures u < |h.threads| && !h.threads[u].SeekStart?
    ensures var th := h.threads[u]; th.SeekScan? ==> SeeksFor(g.threads[u], th.cmd, th.off)
    ensures Sought(h.threads[u]) ==> Sought(g.threads[u]) || g.threads[u].SeekScan?
  {
    StepModest(g, u, c, h);
    if IsSeeking(g.threads[u]) { SeekMoves(g, u, c, h); }
    hide Next, Modest;
  }

  lemma SeekKeeps(call: Thread, m: System, m': System, u: Tid, g: System, t: Tid, c: Choice, h: System)
    requires Steps(g, t, c, h) && u < |g.threads| && SeeksAt(call, m, m', u, g.threads[u], g)
    requires u < |h.threads| && (t == u ==> Sought(h.threads[u])) && (t != u ==> h.threads[u] == g.threads[u])
    ensures SeeksAt(call, m, m', u, h.threads[u], h)
  {
    if HoldsBuff(g.threads[u]) { QuietWhileHeld(g, t, c, h, u); }
    if t == u {
      StepModest(g, u, c, h);
      SeekMoves(g, u, c, h);
    }
    hide Next, Inv, Modest;
  }

  lemma SeekEnds(call: Thread, g: System, u: Tid, c: Choice, h: System)
    requires u < |g.threads| && g.threads[u].SeekScan? && Next(g, u, c) == Some(h)
    requires call == SeekStart(g.threads[u].cmd, g.threads[u].off)
    ensures u < |h.threads| && (Sought(h.threads[u]) ==> SeeksAt(call, g, h, u, h.threads[u], h))
  {
    SeekMoves(g, u, c, h);
    hide Next;
  }

  /** The moment at which a seek took effect. */
  lemma {:induction false} SeekMoment(threads: seq<Thread>, sched: Schedule, u: Tid) returns (m: nat)
    requires AllStarting(threads) && u < |threads| && Sought(ThreadAt(threads, sched, u))
    ensures m < |sched|
    ensures SeeksAt(threads[u], Moment(threads, sched, m), Moment(threads, sched, m + 1), u,
                    ThreadAt(threads, sched, u), Exec(Start(threads), sched))
    decreases |sched|
  {
    hide Next, Inv, SeeksAt;
    NoneMovedYet(threads, u);
    var n := |sched| - 1;
    LastStepOf(threads, sched, u);
    var (g, h, (t, c)) := (Exec(Start(threads), sched[..n]), Exec(Start(threads), sched), sched[n]);
    assert sched[..n + 1] == sched;
    if h != g && t == u && g.threads[u].SeekScan? {
      m := n;
      SeekArgs(threads, sched[..n], u);
      SeekEnds(threads[u], g, u, c, h);
    } else {
      if h != g && t == u { SeekGoesOn(g, u, c, h); }
      m := SeekMoment(threads, sched[..n], u);
      assert sched[..n][..m] == sched[..m] && sched[..n][..m + 1] == sched[..m + 1];
      if h != g { SeekKeeps(threads[u], Moment(threads, sched, m), Moment(threads, sched, m + 1), u, g, t, c, h); }
    }
  }

  /** A seek that has returned is one atomic seek: at one step between its start and its return it decided as
      a seek run alone would, and set the shared position if it accepted. */
  lemma SeeksAreAtomic(threads: seq<Thread>, sched: Schedule, u: Tid) returns (m: nat)
    requires AllStarting(threads) && u < |threads| && ThreadAt(threads, sched, u).SeekDone?
    ensures m < |sched|
    ensures var (g, th, call) := (Moment(threads, sched, m), ThreadAt(threads, sched, u), threads[u]);
            && call.SeekStart? && ThreadAt(threads, sched[..m], u).SeekScan?
            && !MidCommit(g) && g.ring.Valid([]) && g.ring.Queue() == Window(g.commits)
            && th.seen == |g.commits| && th.target == SeekTarget(g.ring.Queue(), call.cmd, call.off)
            && Landed(g, Moment(threads, sched, m + 1), th.target)
    ensures var (g, th, call) := (Moment(threads, sched, m), ThreadAt(threads, sched, u), threads[u]);
            |g.ring.slots| == CAPACITY && g.ring.inOffs <= CAPACITY && g.ring.outOffs <= CAPACITY &&
            var ring := g.ring.Queue();
            && (th.target.Some? <==>
                  && call.cmd <= |ring|
                  && call.off <= if call.cmd < |ring| then |ring[call.cmd]|
                                 else if |ring| == CAPACITY then |ring[0]| else 0)
            && (th.target.Some? ==> th.target.value == |Flat(ring[..call.cmd])| + call.off)
  {
    m := SeekMoment(threads, sched, u);
    Grows(threads, sched, m);
    Grows(threads, sched, 0);
    var (g, h) := (Moment(threads, sched, m), Exec(Start(threads), sched));
    hide Next;
    ReadersSeeWholeCommits(threads, sched[..m], u);
    ReachableInv(threads, sched);
    hide Exec, SeekTarget, Landed, Locks, OrderOk, StageOk, SerialOk, RingHeld, MidCommit, Flat;
    assert Explained(h.threads[u], h.commits, h.calls);
    assert h.commits[..|g.commits|] == g.commits;
    SeekTargetIs(g.ring.Queue(), threads[u].cmd, threads[u].off);
  }

  // ---- Calls of aesd_llseek ----

  predicate Lsought(th: Thread) { th.LseekRead? || th.LseekUnlock? || th.LseekDone? }

  /** An aesd_llseek that has got as far as th in state h set the position between g and g'. */
  ghost predicate LseeksAt(call: Thread, g: System, g': System, u: Tid, th: Thread, h: System)
  {
    && call.LseekStart? && u < |g.threads| && g.threads[u].LseekScan?
    && var (dist, whence, sum) := (call.dist, call.whence, g.threads[u].sum);
    var goal := LlseekTarget(sum, g.lseekPos, dist, whence);
    && (whence.SEEK_END? ==> g.threads[u].index >= g.ring.Count()) && g'.lseekPos == goal
    && match th
       case LseekRead(d, w, e) =>
         d == dist && w == whence && e == goal && h.commits == g.commits && (h.lseekPos == goal || h.lseekPos == 0)
       case LseekUnlock(d, w, e, back) =>
         d == dist && w == whence && e == goal && h.commits == g.commits && (back == goal || back == 0)
       case LseekDone(d, w, e, back, seen) =>
         d == dist && w == whence && e == goal && seen == |g.commits| && (back == goal || back == 0)
       case _ => false
  }

  /** The steps of an aesd_llseek. */
  lemma LseekMoves(g: System, u: Tid, c: Choice, h: System)
    requires u < |g.threads| && IsLseeking(g.threads[u]) && Next(g, u, c) == Some(h)
    ensures u < |h.threads| && h.commits == g.commits
    ensures match h.threads[u]
            case LseekScan(dist, whence, _, _) => LseeksFor(g.threads[u], dist, whence)
            case LseekRead(dist, whence, goal) =>
              && g.threads[u].LseekScan? && LseeksFor(g.threads[u], dist, whence) && h.lseekPos == goal
              && goal == LlseekTarget(g.threads[u].sum, g.lseekPos, dist, whence)
              && (whence.SEEK_END? ==> g.threads[u].index >= g.ring.Count())
            case LseekUnlock(dist, whence, goal, back) =>
              g.threads[u] == LseekRead(dist, whence, goal) && back == g.lseekPos == h.lseekPos
            case LseekDone(dist, whence, goal, back, seen) =>
              g.threads[u] == LseekUnlock(dist, whence, goal, back) && seen == |g.commits|
            case th => th.Finished? && g.threads[u].LseekStart? && c.Signal?
  {
    hide Ring<seq<byte>>.Count;
    if g.threads[u].LseekScan? { LseekScanMoves(g, u, c, h); } else { hide SlotAt, LlseekTarget; }
  }

  lemma LseekScanMoves(g: System, u: Tid, c: Choice, h: System)
    requires u < |g.threads| && g.threads[u].LseekScan? && Next(g, u, c) == Some(h)
    ensures u < |h.threads| && h.commits == g.commits
    ensures match h.threads[u]
            case LseekScan(dist, whence, _, _) => LseeksFor(g.threads[u], dist, whence)
            case LseekRead(dist, whence, goal) =>
              && LseeksFor(g.threads[u], dist, whence) && h.lseekPos == goal
              && goal == LlseekTarget(g.threads[u].sum, g.lseekPos, dist, whence)
              && (whence.SEEK_END? ==> g.threads[u].index >= g.ring.Count())
            case _ => false
  {
    hide SlotAt, LlseekTarget, Ring<seq<byte>>.Count;
  }

  predicate LseeksFor(th: Thread, dist: loff, whence: Whence)
  {
    match th
    case LseekStart(d, w) => d == dist && w == whence
    case LseekScan(d, w, _, _) => d == dist && w == whence
    case _ => false
  }

  lemma {:induction false} LseekArgs(threads: seq<Thread>, sched: Schedule, u: Tid)
    requires AllStarting(threads) && u < |threads|
    ensures var th := ThreadAt(threads, sched, u);
            && (th.LseekStart? ==> th == threads[u])
            && (th.LseekScan? ==> threads[u] == LseekStart(th.dist, th.whence))
  {
    hide Next, Inv;
    if sched == [] {
      NoneMovedYet(threads, u);
    } else {
      var n := |sched| - 1;
      LseekArgs(threads, sched[..n], u);
      LastStepOf(threads, sched, u);
      var (g, h) := (Exec(Start(threads), sched[..n]), Exec(Start(threads), sched));
      if h != g && sched[n].0 == u { LseekGoesOn(g, u, sched[n].1, h); }
    }
  }

  lemma LseekGoesOn(g: System, u: Tid, c: Choice, h: System)
    requires u < |g.threads| && Next(g, u, c) == Some(h)
    ensures u < |h.threads| && !h.threads[u].LseekStart?
    ensures var th := h.threads[u]; th.LseekScan? ==> LseeksFor(g.threads[u], th.dist, th.whence)
    ensures Lsought(h.threads[u]) ==> Lsought(g.threads[u]) || g.threads[u].LseekScan?
  {
    StepModest(g, u, c, h);
    if IsLseeking(g.threads[u]) { LseekMoves(g, u, c, h); }
    hide Next, Modest;
  }

  lemma LseekKeeps(call: Thread, m: System, m': System, u: Tid, g: System, t: Tid, c: Choice, h: System)
    requires Steps(g, t, c, h) && u < |g.threads| && LseeksAt(call, m, m', u, g.threads[u], g)
    requires u < |h.threads| && (t == u ==> Lsought(h.threads[u])) && (t != u ==> h.threads[u] == g.threads[u])
    ensures LseeksAt(call, m, m', u, h.threads[u], h)
  {
    if HoldsBuff(g.threads[u]) { QuietWhileHeld(g, t, c, h, u); }
    if t == u {
      StepModest(g, u, c, h);
      LseekMoves(g, u, c, h);
    }
    hide Next, Inv, Modest, LlseekTarget;
  }

  lemma LseekSetsIt(call: Thread, g: System, u: Tid, c: Choice, h: System)
    requires u < |g.threads| && g.threads[u].LseekScan? && Next(g, u, c) == Some(h)
    requires call == LseekStart(g.threads[u].dist, g.threads[u].whence)
    ensures u < |h.threads| && (Lsought(h.threads[u]) ==> LseeksAt(call, g, h, u, h.threads[u], h))
  {
    LseekMoves(g, u, c, h);
    hide Next;
  }

  /** The moment at which an aesd_llseek set the position. */
  lemma {:induction false} LseekMoment(threads: seq<Thread>, sched: Schedule, u: Tid) returns (m: nat)
    requires AllStarting(threads) && u < |threads| && Lsought(ThreadAt(threads, sched, u))
    ensures m < |sched|
    ensures LseeksAt(threads[u], Moment(threads, sched, m), Moment(threads, sched, m + 1), u,
                     ThreadAt(threads, sched, u), Exec(Start(threads), sched))
    decreases |sched|
  {
    hide Next, Inv, LseeksAt;
    NoneMovedYet(threads, u);
    var n := |sched| - 1;
    LastStepOf(threads, sched, u);
    var (g, h, (t, c)) := (Exec(Start(threads), sched[..n]), Exec(Start(threads), sched), sched[n]);
    assert sched[..n + 1] == sched;
    if h != g && t == u && g.threads[u].LseekScan? {
      m := n;
      LseekArgs(threads, sched[..n], u);
      LseekSetsIt(threads[u], g, u, c, h);
    } else {
      if h != g && t == u { LseekGoesOn(g, u, c, h); }
      m := LseekMoment(threads, sched[..n], u);
      assert sched[..n][..m] == sched[..m] && sched[..n][..m + 1] == sched[..m + 1];
      if h != g { LseekKeeps(threads[u], Moment(threads, sched, m), Moment(threads, sched, m + 1), u, g, t, c, h); }
    }
  }

  /** An aesd_llseek that has returned set, in one step of its call, the position that it would have set run
      alone. It returned that position, or 0 where a close, which takes no lock, came between. */
  lemma LseeksAreAtomic(threads: seq<Thread>, sched: Schedule, u: Tid) returns (m: nat)
    requires AllStarting(threads) && u < |threads| && ThreadAt(threads, sched, u).LseekDone?
    ensures m < |sched|
    ensures var (g, th, call) := (Moment(threads, sched, m), ThreadAt(threads, sched, u), threads[u]);
            && call.LseekStart? && ThreadAt(threads, sched[..m], u).LseekScan?
            && !MidCommit(g) && g.ring.Valid([]) && g.ring.Queue() == Window(g.commits) && th.seen == |g.commits|
            && var goal := LlseekTarget(|Flat(g.ring.Queue())|, g.lseekPos, call.dist, call.whence);
            Moment(threads, sched, m + 1).lseekPos == goal && (th.back == goal || th.back == 0)
    ensures var (g, call, after) := (Moment(threads, sched, m), threads[u], Moment(threads, sched, m + 1).lseekPos);
            && |g.ring.slots| == CAPACITY && g.ring.inOffs <= CAPACITY && g.ring.outOffs <= CAPACITY
            && var (total, sum) := (|Flat(g.ring.Queue())|, g.lseekPos + call.dist);
            match call.whence
            case SEEK_SET => after == call.dist
            case SEEK_CUR =>
              after == if sum >= 0x8000_0000_0000_0000 then sum - SIZE_T_RANGE
                       else if sum < -0x8000_0000_0000_0000 then sum + SIZE_T_RANGE else sum
            case SEEK_END => after == total
            case SEEK_OTHER => after == g.lseekPos
  {
    m := LseekMoment(threads, sched, u);
    Grows(threads, sched, m);
    Grows(threads, sched, 0);
    hide Next;
    ReadersSeeWholeCommits(threads, sched[..m], u);
    ReachableInv(threads, sched[..m]);
    hide Exec, LlseekTarget, MidCommit, Flat;
    SumIsTotal(Moment(threads, sched, m), u);
    LseekGoal(Moment(threads, sched, m).lseekPos, threads[u]);
    var g := Moment(threads, sched, m);
    RingSmall(g);
    LlseekTargetIs(|Flat(g.ring.Queue())|, g.lseekPos, threads[u].dist);
  }

  lemma SumIsTotal(g: System, u: Tid)
    requires Inv(g) && u < |g.threads| && g.threads[u].LseekScan?
    ensures g.ring.Valid([])
    ensures g.threads[u].index >= g.ring.Count() ==> g.threads[u].sum == |Flat(g.ring.Queue())|
  {
    hide OrderOk, StageOk, SerialOk, Explained, Flat;
    var th := g.threads[u];
    assert Holder(g, g.buffMutex) == Some(th);
    LseekLearns(g.ring, th.index, th.sum);
  }

  /** Only seeking from the end depends on the content. */
  lemma LseekGoal(lseekPos: loff, call: Thread)
    requires call.LseekStart?
    ensures !call.whence.SEEK_END? ==> forall a: nat, b: nat ::
              LlseekTarget(a, lseekPos, call.dist, call.whence) == LlseekTarget(b, lseekPos, call.dist, call.whence)
  {
  }

  /** A step that is tried, and taken unless the thread must wait. */
  function Tried(g: System, t: Tid, c: Choice): System
  {
    if t < |g.threads| && Next(g, t, c).Some? then Next(g, t, c).value else g
  }

  lemma OneMore(g: System, sched: Schedule, t: Tid, c: Choice)
    ensures Exec(g, sched + [(t, c)]) == Tried(Exec(g, sched), t, c)
  {
    hide Next;
    assert (sched + [(t, c)])[..|sched|] == sched;
  }

  /** Two threads on the empty device. */
  function Pair(a: Thread, b: Thread, buffMutex: Option<Tid>, lseekPos: loff): System
  {
    Start([a, b]).(buffMutex := buffMutex, lseekPos := lseekPos)
  }

  /** The four steps of an aesd_llseek to dist, and that of a close. */
  lemma PairSteps(dist: loff, a: Thread, b: Thread, m: Option<Tid>, pos: loff, back: loff)
    ensures Tried(Pair(LseekStart(dist, SEEK_SET), b, None, pos), 0, Go)
            == Pair(LseekScan(dist, SEEK_SET, 0, 0), b, Some(0), pos)
    ensures Tried(Pair(LseekScan(dist, SEEK_SET, 0, 0), b, m, pos), 0, Go)
            == Pair(LseekRead(dist, SEEK_SET, dist), b, m, dist)
    ensures Tried(Pair(LseekRead(dist, SEEK_SET, dist), b, m, pos), 0, Go)
            == Pair(LseekUnlock(dist, SEEK_SET, dist, pos), b, m, pos)
    ensures Tried(Pair(LseekUnlock(dist, SEEK_SET, dist, back), b, m, pos), 0, Go)
            == Pair(LseekDone(dist, SEEK_SET, dist, back, 0), b, None, pos)
    ensures Tried(Pair(a, ReleaseStart, m, pos), 1, Go) == Pair(a, Finished(Ok(0)), m, 0)
  {
    hide Next, Pair, Tried;
    PairLocks(dist, b, pos);
    PairSets(dist, b, m, pos);
    PairReads(dist, b, m, pos);
    PairEnds(dist, b, m, pos, back);
    PairCloses(a, m, pos);
  }

  lemma PairLocks(dist: loff, b: Thread, pos: loff)
    ensures Tried(Pair(LseekStart(dist, SEEK_SET), b, None, pos), 0, Go)
            == Pair(LseekScan(dist, SEEK_SET, 0, 0), b, Some(0), pos)
  {
  }

  lemma PairSets(dist: loff, b: Thread, m: Option<Tid>, pos: loff)
    ensures Tried(Pair(LseekScan(dist, SEEK_SET, 0, 0), b, m, pos), 0, Go)
            == Pair(LseekRead(dist, SEEK_SET, dist), b, m, dist)
  {
  }

  lemma PairReads(dist: loff, b: Thread, m: Option<Tid>, pos: loff)
    ensures Tried(Pair(LseekRead(dist, SEEK_SET, dist), b, m, pos), 0, Go)
            == Pair(LseekUnlock(dist, SEEK_SET, dist, pos), b, m, pos)
  {
  }

  lemma PairEnds(dist: loff, b: Thread, m: Option<Tid>, pos: loff, back: loff)
    ensures Tried(Pair(LseekUnlock(dist, SEEK_SET, dist, back), b, m, pos), 0, Go)
            == Pair(LseekDone(dist, SEEK_SET, dist, back, 0), b, None, pos)
  {
  }

  lemma PairCloses(a: Thread, m: Option<Tid>, pos: loff)
    ensures Tried(Pair(a, ReleaseStart, m, pos), 1, Go) == Pair(a, Finished(Ok(0)), m, 0)
  {
  }

  /** Closing any file loses the seek position of every other: after an aesd_llseek to some byte has returned
      that position, a close that some other session makes takes it back to 0. */
  lemma CloseLosesSeek(dist: loff)
    ensures var threads := [LseekStart(dist, SEEK_SET), ReleaseStart];
            var sched := [(0, Go), (0, Go), (0, Go), (0, Go)];
            && Exec(Start(threads), sched).lseekPos == dist
            && ThreadAt(threads, sched, 0) == LseekDone(dist, SEEK_SET, dist, dist, 0)
            && Exec(Start(threads), sched + [(1, Go)]).lseekPos == 0
  {
    hide Next, Tried;
    var g := Start([LseekStart(dist, SEEK_SET), ReleaseStart]);
    var step: (Tid, Choice) := (0, Go);
    var s1 := [step];
    var s2 := s1 + [step];
    var s3 := s2 + [step];
    var s4 := s3 + [step];
    assert Exec(g, []) == g == Pair(LseekStart(dist, SEEK_SET), ReleaseStart, None, 0);
    hide Exec, Pair;
    assert [] + [step] == s1;
    OneMore(g, [], 0, Go);
    PairSteps(dist, g.threads[0], ReleaseStart, Some(0), 0, dist);
    OneMore(g, s1, 0, Go);
    OneMore(g, s2, 0, Go);
    PairSteps(dist, LseekDone(dist, SEEK_SET, dist, dist, 0), ReleaseStart, Some(0), dist, dist);
    OneMore(g, s3, 0, Go);
    PairSteps(dist, LseekDone(dist, SEEK_SET, dist, dist, 0), ReleaseStart, None, dist, dist);
    OneMore(g, s4, 1, Go);
    assert s4 == [(0, Go), (0, Go), (0, Go), (0, Go)];
    PairParts(LseekDone(dist, SEEK_SET, dist, dist, 0), ReleaseStart, None, dist);
    PairParts(LseekDone(dist, SEEK_SET, dist, dist, 0), Finished(Ok(0)), None, 0);
  }

  lemma PairParts(a: Thread, b: Thread, m: Option<Tid>, pos: loff)
    ensures Pair(a, b, m, pos).threads == [a, b] && Pair(a, b, m, pos).lseekPos == pos
  {
  }

  /** One that comes while the call holds buffMutex makes it return 0 instead of what it has set. */
  lemma CloseSpoilsReturn(dist: loff)
    ensures var threads := [LseekStart(dist, SEEK_SET), ReleaseStart];
            var sched := [(0, Go), (0, Go), (1, Go), (0, Go), (0, Go)];
            ThreadAt(threads, sched, 0) == LseekDone(dist, SEEK_SET, dist, 0, 0)
  {
    hide Next, Tried;
    var g := Start([LseekStart(dist, SEEK_SET), ReleaseStart]);
    var step: (Tid, Choice) := (0, Go);
    var s1 := [step];
    var s2 := s1 + [step];
    var s3 := s2 + [(1, Go)];
    var s4 := s3 + [step];
    var s5 := s4 + [step];
    assert Exec(g, []) == g == Pair(LseekStart(dist, SEEK_SET), ReleaseStart, None, 0);
    hide Exec, Pair;
    assert [] + [step] == s1;
    OneMore(g, [], 0, Go);
    PairSteps(dist, g.threads[0], ReleaseStart, Some(0), 0, dist);
    OneMore(g, s1, 0, Go);
    PairSteps(dist, LseekRead(dist, SEEK_SET, dist), ReleaseStart, Some(0), dist, dist);
    OneMore(g, s2, 1, Go);
    PairSteps(dist, LseekRead(dist, SEEK_SET, dist), Finished(Ok(0)), Some(0), 0, 0);
    OneMore(g, s3, 0, Go);
    OneMore(g, s4, 0, Go);
    assert s5 == [(0, Go), (0, Go), (1, Go), (0, Go), (0, Go)];
    PairParts(LseekDone(dist, SEEK_SET, dist, 0, 0), Finished(Ok(0)), None, 0);
  }

  // ---- Writes ----

  /** A write in progress works on the buffer it was called with. */
  lemma {:induction false} WriteArgs(threads: seq<Thread>, sched: Schedule, u: Tid)
    requires AllStarting(threads) && u < |threads|
    ensures var th := ThreadAt(threads, sched, u);
            IsWriting(th) ==> threads[u].WriteStart? && threads[u].buf == th.buf
  {
    hide Next, Inv;
    if sched == [] {
      NoneMovedYet(threads, u);
    } else {
      var n := |sched| - 1;
      WriteArgs(threads, sched[..n], u);
      LastStepOf(threads, sched, u);
      var (g, h) := (Exec(Start(threads), sched[..n]), Exec(Start(threads), sched));
      if h != g && sched[n].0 == u { WriteGoesOn(g, u, sched[n].1, h); }
    }
  }

  lemma WriteGoesOn(g: System, u: Tid, c: Choice, h: System)
    requires u < |g.threads| && Next(g, u, c) == Some(h)
    ensures u < |h.threads|
    ensures IsWriting(h.threads[u]) ==> IsWriting(g.threads[u]) && g.threads[u].buf == h.threads[u].buf
  {
    StepModest(g, u, c, h);
    hide Next;
  }

  /** What the step that ends a call leaves behind. */
  lemma CallEnds(g: System, u: Tid, c: Choice, h: System)
    requires u < |g.threads| && Next(g, u, c) == Some(h)
    ensures u < |h.threads| && !IsDone(g.threads[u])
    ensures match h.threads[u]
            case WriteDone(ret, at) =>
              g.threads[u].WriteUnlock? && g.threads[u].ret == ret && at == |g.calls| && |h.calls| == at + 1
              && h.calls[at] == Call(g.threads[u].buf, g.env)
            case ReadDone(_, _, _, _, seen) => seen == |g.commits|
            case SeekDone(_, _, _, seen) => seen == |g.commits|
            case LseekDone(_, _, _, _, seen) => seen == |g.commits|
            case _ => true
  {
    StepModest(g, u, c, h);
    if IsReading(g.threads[u]) { ReadMoves(g, u, c, h); }
    if IsSeeking(g.threads[u]) { SeekMoves(g, u, c, h); }
    if IsLseeking(g.threads[u]) { LseekMoves(g, u, c, h); }
    hide Next;
  }

  /** A write that has returned is one of the serial run's, with its own buffer, and returned what it returns
      there: the writes before it in that run are those that had finished when it gave entryMutex back. */
  lemma {:induction false} WritesAreAtomic(threads: seq<Thread>, sched: Schedule, u: Tid) returns (m: nat)
    requires AllStarting(threads) && u < |threads| && ThreadAt(threads, sched, u).WriteDone?
    ensures m < |sched|
    ensures var (g, th, call) := (Moment(threads, sched, m), ThreadAt(threads, sched, u), threads[u]);
            && call.WriteStart? && th.at == |g.calls| && CallsOk(g.calls) && g.env.Covers(call.buf)
            && g.calls + [Call(call.buf, g.env)] <= Exec(Start(threads), sched).calls
            && th.ret == WriteResult(Run(INIT, g.calls), call.buf, g.env)
    decreases |sched|
  {
    hide Next, Inv, WriteResult, Run;
    NoneMovedYet(threads, u);
    var n := |sched| - 1;
    LastStepOf(threads, sched, u);
    var (g, h, (t, c)) := (Exec(Start(threads), sched[..n]), Exec(Start(threads), sched), sched[n]);
    Grows(threads, sched, n);
    if h != g && t == u {
      m := n;
      CallEnds(g, u, c, h);
      WriteArgs(threads, sched[..n], u);
      WriteExplained(threads, sched, u, g.calls);
    } else {
      m := WritesAreAtomic(threads, sched[..n], u);
      assert sched[..n][..m] == sched[..m];
    }
  }

  lemma WriteExplained(threads: seq<Thread>, sched: Schedule, u: Tid, before: seq<Call>)
    requires AllStarting(threads) && u < |threads| && ThreadAt(threads, sched, u).WriteDone?
    requires var th, g := ThreadAt(threads, sched, u), Exec(Start(threads), sched);
             u < |g.threads| && th.at == |before| < |g.calls| && before <= g.calls
    ensures var th, calls := ThreadAt(threads, sched, u), Exec(Start(threads), sched).calls;
            && CallsOk(calls) && CallsOk(before) && calls[th.at].env.Covers(calls[th.at].buf)
            && th.ret == WriteResult(Run(INIT, before), calls[th.at].buf, calls[th.at].env)
  {
    ReachableInv(threads, sched);
    var g := Exec(Start(threads), sched);
    hide Exec, Run, WriteResult, Locks, OrderOk, StageOk, SerialOk, RingHeld;
    assert Explained(g.threads[u], g.commits, g.calls);
    assert g.calls[..|before|] == before;
  }

  /** Calls keep their order in time: what had been committed, and which writes had finished, at any moment
      before a call returned comes before what it saw, and before its own place among the writes. */
  lemma {:induction false} OrderInTime(threads: seq<Thread>, sched: Schedule, n: nat, u: Tid)
    requires AllStarting(threads) && u < |threads| && n <= |sched| && !IsDone(ThreadAt(threads, sched[..n], u))
    ensures var (g, h) := (Moment(threads, sched, n), Exec(Start(threads), sched));
            match ThreadAt(threads, sched, u)
            case WriteDone(_, at) => |g.calls| <= at < |h.calls|
            case ReadDone(_, _, _, _, seen) => |g.commits| <= seen <= |h.commits|
            case SeekDone(_, _, _, seen) => |g.commits| <= seen <= |h.commits|
            case LseekDone(_, _, _, _, seen) => |g.commits| <= seen <= |h.commits|
            case _ => true
    decreases |sched|
  {
    hide Next, Inv, IsDone;
    if n == |sched| {
      assert sched[..n] == sched;
      DoneKinds(ThreadAt(threads, sched, u));
    } else {
      var k := |sched| - 1;
      assert sched[..k][..n] == sched[..n];
      OrderInTime(threads, sched[..k], n, u);
      Grows(threads, sched[..k], n);
      Grows(threads, sched, k);
      LastStepOf(threads, sched, u);
      var (g, h) := (Exec(Start(threads), sched[..k]), Exec(Start(threads), sched));
      if h != g && sched[k].0 == u { CallEnds(g, u, sched[k].1, h); }
    }
  }

  lemma DoneKinds(th: Thread)
    requires !IsDone(th)
    ensures !th.WriteDone? && !th.ReadDone? && !th.SeekDone? && !th.LseekDone?
  {
  }

  // ---- Calls that are not interrupted do their work ----

  /** A thread is in the call it started with, or has returned from it, or was sent away. */
  predicate SameCall(call: Thread, th: Thread)
  {
    match call
    case WriteStart(_) => IsWriting(th) || th.WriteDone? || th.Finished?
    case ReadStart(_, _) => IsReading(th) || th.ReadDone? || th.Finished?
    case SeekStart(_, _) => IsSeeking(th) || th.SeekDone? || th.Finished?
    case LseekStart(_, _) => IsLseeking(th) || th.LseekDone? || th.Finished?
    case _ => th == call || th.Finished?
  }

  lemma {:induction false} CallStays(threads: seq<Thread>, sched: Schedule, u: Tid)
    requires AllStarting(threads) && u < |threads|
    ensures SameCall(threads[u], ThreadAt(threads, sched, u))
  {
    hide Next, Inv, Modest;
    if sched == [] {
      assert ThreadAt(threads, sched, u) == threads[u];
    } else {
      var n := |sched| - 1;
      CallStays(threads, sched[..n], u);
      LastStepOf(threads, sched, u);
      var (g, h) := (Exec(Start(threads), sched[..n]), Exec(Start(threads), sched));
      if h != g && sched[n].0 == u { CallFollows(threads[u], g, u, sched[n].1, h); }
    }
  }

  lemma CallFollows(call: Thread, g: System, u: Tid, c: Choice, h: System)
    requires Starting(call) && u < |g.threads| && Next(g, u, c) == Some(h) && SameCall(call, g.threads[u])
    ensures u < |h.threads| && SameCall(call, h.threads[u])
  {
    StepModest(g, u, c, h);
    hide Next;
  }

  /** Only a signal sends a call away, and a close ends by itself. */
  lemma SentAway(g: System, u: Tid, c: Choice, h: System)
    requires u < |g.threads| && Next(g, u, c) == Some(h) && u < |h.threads| && h.threads[u].Finished?
    ensures g.threads[u].ReleaseStart? || c.Signal?
  {
    StepModest(g, u, c, h);
    if IsReading(g.threads[u]) { ReadMoves(g, u, c, h); }
    if IsSeeking(g.threads[u]) { SeekMoves(g, u, c, h); }
    if IsLseeking(g.threads[u]) { LseekMoves(g, u, c, h); }
    if g.threads[u].WriteStart? { WriteBegins(g, u, c, h); }
    hide Next;
  }

  lemma WriteBegins(g: System, u: Tid, c: Choice, h: System)
    requires u < |g.threads| && Next(g, u, c) == Some(h) && g.threads[u].WriteStart?
    ensures u < |h.threads| && (h.threads[u].Finished? <==> c.Signal?)
  {
  }

  /** A call that ends without a result is a close, or was interrupted in some step of its own. */
  lemma {:induction false} OnlySignalsSendAway(threads: seq<Thread>, sched: Schedule, u: Tid)
    requires AllStarting(threads) && u < |threads| && ThreadAt(threads, sched, u).Finished?
    ensures threads[u].ReleaseStart? || exists i :: 0 <= i < |sched| && sched[i] == (u, Signal)
    decreases |sched|
  {
    hide Next, Inv, SameCall;
    NoneMovedYet(threads, u);
    var n := |sched| - 1;
    LastStepOf(threads, sched, u);
    var (g, h) := (Exec(Start(threads), sched[..n]), Exec(Start(threads), sched));
    if h != g && sched[n].0 == u {
      SentAway(g, u, sched[n].1, h);
      if g.threads[u].ReleaseStart? {
        CallStays(threads, sched[..n], u);
        CloseOnly(threads[u]);
      } else {
        assert sched[n] == (u, Signal);
      }
    } else {
      OnlySignalsSendAway(threads, sched[..n], u);
      if i :| 0 <= i < n && sched[..n][i] == (u, Signal) { assert sched[i] == (u, Signal); }
    }
  }

  lemma CloseOnly(call: Thread)
    requires Starting(call) && SameCall(call, ReleaseStart)
    ensures call.ReleaseStart?
  {
  }

  /** No call is interrupted while it waits, and no block is refused. */
  predicate Undisturbed(sched: Schedule)
  {
    forall i :: 0 <= i < |sched| ==> !sched[i].1.Signal? && !sched[i].1.NoBlock?
  }

  /** So every call that has returned undisturbed has a result of its kind. */
  lemma UndisturbedResults(threads: seq<Thread>, sched: Schedule, u: Tid)
    requires AllStarting(threads) && u < |threads| && Undisturbed(sched) && IsDone(ThreadAt(threads, sched, u))
    ensures var th := ThreadAt(threads, sched, u);
            match threads[u]
            case WriteStart(_) => th.WriteDone?
            case ReadStart(_, _) => th.ReadDone?
            case SeekStart(_, _) => th.SeekDone?
            case LseekStart(_, _) => th.LseekDone?
            case _ => th.Finished?
  {
    CallStays(threads, sched, u);
    hide Exec;
    if ThreadAt(threads, sched, u).Finished? { OnlySignalsSendAway(threads, sched, u); }
  }

  /** Every block asked for has been granted. */
  predicate Granted(env: Env)
  {
    env.lock && forall p :: 0 <= p < |env.alloc| ==> env.alloc[p]
  }

  predicate AllGranted(g: System)
  {
    Granted(g.env) && forall i :: 0 <= i < |g.calls| ==> Granted(g.calls[i].env)
  }

  lemma WriterGranted(g: System, t: Tid, c: Choice, h: System)
    requires t < |g.threads| && Next(g, t, c) == Some(h) && IsWriting(g.threads[t]) && !c.NoBlock? && Granted(g.env)
    ensures Granted(h.env)
  {
    hide Ring<seq<byte>>.Advance, Ring<seq<byte>>.Settle, SegmentEnd;
  }

  lemma StepGranted(g: System, t: Tid, c: Choice, h: System)
    requires t < |g.threads| && Next(g, t, c) == Some(h) && !c.NoBlock? && AllGranted(g)
    ensures AllGranted(h)
  {
    hide Next, Granted;
    StepModest(g, t, c, h);
    if IsWriting(g.threads[t]) { WriterGranted(g, t, c, h); }
  }

  lemma {:induction false} UndisturbedGranted(threads: seq<Thread>, sched: Schedule)
    requires Undisturbed(sched)
    ensures AllGranted(Exec(Start(threads), sched))
  {
    hide Next, AllGranted;
    if sched == [] {
      StartGranted(threads);
    } else {
      var n := |sched| - 1;
      UndisturbedGranted(threads, sched[..n]);
      LastStep(threads, sched);
      assert sched[..|sched|] == sched;
      var (g, h) := (Exec(Start(threads), sched[..n]), Exec(Start(threads), sched));
      if h != g { StepGranted(g, sched[n].0, sched[n].1, h); }
    }
  }

  lemma StartGranted(threads: seq<Thread>)
    ensures AllGranted(Start(threads))
  {
  }

  /** A write that has returned undisturbed has done its work: if it fits beside what was staged at its turn, it
      has returned its count and its whole buffer is among the bytes accepted; if not, it has returned ENOMEM
      and left the device as it was. */
  lemma UndisturbedWrites(threads: seq<Thread>, sched: Schedule, u: Tid) returns (at: nat)
    requires AllStarting(threads) && u < |threads| && threads[u].WriteStart?
    requires Undisturbed(sched) && IsDone(ThreadAt(threads, sched, u))
    ensures var (calls, buf) := (Exec(Start(threads), sched).calls, threads[u].buf);
            && CallsOk(calls) && at < |calls| && calls[at].buf == buf
            && var before := Run(INIT, calls[..at]);
            if |before.staged| + |buf| <= KMALLOC_MAX_SIZE then
              && ThreadAt(threads, sched, u) == WriteDone(Ok(|buf|), at)
              && Taken(INIT, calls[..at + 1]) == Taken(INIT, calls[..at]) + buf
            else
              && ThreadAt(threads, sched, u) == WriteDone(Err(ENOMEM), at)
              && Run(INIT, calls[..at + 1]) == before
  {
    hide Exec, Next, Inv, Run, Taken, WriteResult, AfterWrite;
    UndisturbedResults(threads, sched, u);
    var m := WritesAreAtomic(threads, sched, u);
    at := ThreadAt(threads, sched, u).at;
    var (calls, buf) := (Exec(Start(threads), sched).calls, threads[u].buf);
    ReachableInv(threads, sched);
    WritesFine(Exec(Start(threads), sched));
    UndisturbedGranted(threads, sched);
    PlaceOf(calls, Moment(threads, sched, m).calls, Call(buf, Moment(threads, sched, m).env));
    GrantedWrite(calls, at);
  }

  lemma PlaceOf(calls: seq<Call>, before: seq<Call>, c: Call)
    requires before + [c] <= calls
    ensures |before| < |calls| && calls[|before|] == c && calls[..|before|] == before
  {
  }

  lemma GrantedWrite(calls: Calls, at: nat)
    requires at < |calls| && Granted(calls[at].env)
    ensures var (before, c) := (Run(INIT, calls[..at]), calls[at]);
            if |before.staged| + |c.buf| <= KMALLOC_MAX_SIZE then
              && WriteResult(before, c.buf, c.env) == Ok(|c.buf|)
              && Taken(INIT, calls[..at + 1]) == Taken(INIT, calls[..at]) + c.buf
            else
              && WriteResult(before, c.buf, c.env) == Err(ENOMEM)
              && Run(INIT, calls[..at + 1]) == before
  {
    hide FirstStall, FeedAll;
    var (before, c) := (Run(INIT, calls[..at]), calls[at]);
    CallTaken(INIT, calls[..at], c);
    assert calls[..at] + [c] == calls[..at + 1];
    if Fits(before, c.buf) {
      AllAcceptedIff(before, c.buf, c.env);
      assert c.buf[..|c.buf|] == c.buf;
    } else {
      FedNone(before, c.buf, c.env);
    }
  }

  /** And all calls can be brought to return so, from the start: undisturbed, and every write done. */
  lemma AllCanBeDone(threads: seq<Thread>) returns (sched: Schedule)
    requires AllStarting(threads)
    ensures Undisturbed(sched) && forall u :: 0 <= u < |threads| ==> IsDone(ThreadAt(threads, sched, u))
  {
    hide Exec, Next, Inv;
    sched := AllCanFinish(threads, []);
    assert [] + sched == sched;
    Grows(threads, sched, 0);
  }

  lemma UndisturbedFlushes(threads: seq<Thread>, sched: Schedule)
    requires Undisturbed(sched)
    ensures NoFlushInterrupted(threads, sched)
  {
    hide Exec;
  }

  /** Undisturbed calls, once all have returned, have left the last ten lines of everything the writes that fit
      have written, in lock order, and what follows them is staged. */
  lemma UndisturbedLines(threads: seq<Thread>, sched: Schedule)
    requires AllStarting(threads) && Undisturbed(sched)
    requires forall u :: 0 <= u < |threads| ==> IsDone(ThreadAt(threads, sched, u))
    ensures var g := Exec(Start(threads), sched);
            && CallsOk(g.calls) && g.ring.Valid([])
            && g.ring.Queue() == Window(LinesOf(Taken(INIT, g.calls))) && g.staged == RestOf(Taken(INIT, g.calls))
  {
    hide Exec, Next, LinesOf, RestOf, Taken, Last;
    var g := Exec(Start(threads), sched);
    Grows(threads, sched, 0);
    assert forall u :: 0 <= u < |g.threads| ==> g.threads[u] == ThreadAt(threads, sched, u);
    UndisturbedFlushes(threads, sched);
    LastTenLinesConcurrently(threads, sched);
    ReturnsUnlocked(threads, sched);
    assert AcceptedBytes(g) == Taken(INIT, g.calls) + [] == Taken(INIT, g.calls);
  }

  // ---- Calls that are ----

  /** What the shared memory holds, apart from the locks. */
  predicate SameMemory(g: System, h: System)
  {
    && h.ring == g.ring && h.block == g.block && h.staged == g.staged && h.lseekPos == g.lseekPos
    && h.evicted == g.evicted && h.commits == g.commits && h.calls == g.calls
  }

  /** A wait for the first mutex of a call that is interrupted ends the call with ERESTARTSYS and nothing else. One
      for buffMutex inside a write goes unnoticed: the line stays on the stage, newline and all, and the write
      goes on behind it. */
  lemma SignalsInterrupt(threads: seq<Thread>, sched: Schedule, u: Tid)
    requires AllStarting(threads) && u < |threads|
    ensures var (th, after) := (ThreadAt(threads, sched, u), ThreadAt(threads, sched + [(u, Signal)], u));
            var (g, h) := (Exec(Start(threads), sched), Exec(Start(threads), sched + [(u, Signal)]));
            && (th.WriteStart? || th.ReadStart? || th.SeekStart? || th.LseekStart? ==>
                  after == Finished(Err(ERESTARTSYS)) && SameMemory(g, h))
            && (th.WantFlush? ==>
                  && after == Scan(th.buf, th.base) && SameMemory(g, h)
                  && h.staged != [] && h.staged[|h.staged| - 1] == NEWLINE)
  {
    hide Exec, Inv;
    Grows(threads, sched, 0);
    OneMore(Start(threads), sched, u, Signal);
    Interrupted(Exec(Start(threads), sched), u);
    ReachableInv(threads, sched);
    if ThreadAt(threads, sched, u).WantFlush? { LineStaged(Exec(Start(threads), sched), u); }
    hide Next;
  }

  lemma Interrupted(g: System, u: Tid)
    requires u < |g.threads|
    ensures var (th, h) := (g.threads[u], Tried(g, u, Signal));
            && (th.WriteStart? || th.ReadStart? || th.SeekStart? || th.LseekStart? ==>
                  SameMemory(g, h) && h.threads == g.threads[u := Finished(Err(ERESTARTSYS))])
            && (th.WantFlush? ==> SameMemory(g, h) && h.threads == g.threads[u := Scan(th.buf, th.base)])
  {
    hide StoreSegment, SlotAt, ReadRound, SeekRound, LlseekTarget, Copied;
  }

  /** A line whose flush is asked for is staged whole. */
  lemma LineStaged(g: System, u: Tid)
    requires Inv(g) && u < |g.threads| && g.threads[u].WantFlush?
    ensures g.staged != [] && g.staged[|g.staged| - 1] == NEWLINE
  {
    hide OrderOk, RingHeld, Explained, Run, FeedAll, FirstStall;
    var th := g.threads[u];
    assert Holder(g, g.entryMutex) == Some(th);
    FedStep(Run(INIT, g.calls), th.buf, g.env, th.base - 1);
  }

  /** A write that asks for a block in vain stops there. It reports that only if the part it was about to store
      ends a line. */
  lemma MissingBlockStops(threads: seq<Thread>, sched: Schedule, u: Tid)
    requires AllStarting(threads) && u < |threads|
    ensures var (th, after) := (ThreadAt(threads, sched, u), ThreadAt(threads, sched + [(u, NoBlock)], u));
            var (g, h) := (Exec(Start(threads), sched), Exec(Start(threads), sched + [(u, NoBlock)]));
            th.Scan? && th.base < |th.buf| && !g.block ==>
              && after.WriteUnlock? && after.base == th.base && SameMemory(g, h)
              && after.ret == if NEWLINE in th.buf[th.base..] then Err(ENOMEM) else Ok(|th.buf|)
  {
    hide Exec;
    Grows(threads, sched, 0);
    OneMore(Start(threads), sched, u, NoBlock);
    Missed(Exec(Start(threads), sched), u);
    hide Next;
  }

  lemma Missed(g: System, u: Tid)
    requires u < |g.threads|
    ensures var (th, h) := (g.threads[u], Tried(g, u, NoBlock));
            th.Scan? && th.base < |th.buf| && !g.block ==>
              && SameMemory(g, h)
              && h.threads == g.threads[u := WriteUnlock(th.buf, th.base, if NEWLINE in th.buf[th.base..]
                                                                           then Err(ENOMEM) else Ok(|th.buf|))]
  {
    hide SlotAt, ReadRound, SeekRound, LlseekTarget, Copied;
  }

  /** A fault while copying to the caller shortens what a read delivers by the bytes not copied. */
  lemma FaultShortens(threads: seq<Thread>, sched: Schedule, u: Tid, n: nat)
    requires AllStarting(threads) && u < |threads|
    ensures var (th, after) := (ThreadAt(threads, sched, u), ThreadAt(threads, sched + [(u, Fault(n))], u));
            th.ReadUnlock? ==>
              after.ReadDone? && after.data <= th.data && |after.data| == |th.data| - Min(n, |th.data|)
  {
    hide Exec;
    Grows(threads, sched, 0);
    OneMore(Start(threads), sched, u, Fault(n));
    if ThreadAt(threads, sched, u).ReadUnlock? {
      Faulted(Exec(Start(threads), sched), u, n);
      CopiedIs(ThreadAt(threads, sched, u).data, n);
    }
    hide Next;
  }

  lemma Faulted(g: System, u: Tid, n: nat)
    requires u < |g.threads| && g.threads[u].ReadUnlock?
    ensures var (th, h) := (g.threads[u], Tried(g, u, Fault(n)));
            u < |h.threads| && h.threads[u].ReadDone? && h.threads[u].data == Copied(th.data, n)
  {
    hide Copied;
  }
}
