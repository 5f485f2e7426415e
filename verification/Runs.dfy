/** Whole runs of writes: any number of calls, any chunk boundaries, any failures. */
module Runs {
  import opened Prelude
  import opened Rings
  import opened Lines
  import opened Stream

  datatype Call = Call(buf: seq<byte>, env: Env)

  type Calls = cs: seq<Call> | forall i :: 0 <= i < |cs| ==> cs[i].env.Covers(cs[i].buf) witness []

  /** The device after a run of writes. */
  function Run(s: State, calls: Calls): State
  {
    if calls == [] then s
    else
      var n := |calls| - 1;
      AfterWrite(Run(s, calls[..n]), calls[n].buf, calls[n].env)
  }

  /** The bytes the run accepted, write after write. */
  function Taken(s: State, calls: Calls): seq<byte>
  {
    if calls == [] then []
    else
      var n := |calls| - 1;
      var c := calls[n];
      Taken(s, calls[..n]) + c.buf[..Accepted(Run(s, calls[..n]), c.buf, c.env)]
  }

  /** What the flush at each accepted byte met. */
  function TakenFlushes(s: State, calls: Calls): (f: seq<bool>)
    ensures |f| == |Taken(s, calls)|
  {
    if calls == [] then []
    else
      var n := |calls| - 1;
      var c := calls[n];
      TakenFlushes(s, calls[..n]) + c.env.flush[..Accepted(Run(s, calls[..n]), c.buf, c.env)]
  }

  lemma CallTaken(s: State, calls: Calls, c: Call)
    requires c.env.Covers(c.buf)
    ensures var m := Accepted(Run(s, calls), c.buf, c.env);
            && Run(s, calls + [c]) == AfterWrite(Run(s, calls), c.buf, c.env)
            && Taken(s, calls + [c]) == Taken(s, calls) + c.buf[..m]
            && TakenFlushes(s, calls + [c]) == TakenFlushes(s, calls) + c.env.flush[..m]
  {
    assert (calls + [c])[..|calls|] == calls;
  }

  /** Chunk boundaries and failed writes leave no trace: a run of writes is one feed of the bytes it
      accepted. */
  lemma {:induction false} RunIsOneFeed(s: State, calls: Calls)
    ensures Run(s, calls) == FeedAll(s, Taken(s, calls), TakenFlushes(s, calls))
  {
    if calls != [] {
      var n := |calls| - 1;
      var c := calls[n];
      RunIsOneFeed(s, calls[..n]);
      var t := Run(s, calls[..n]);
      var m := Accepted(t, c.buf, c.env);
      FeedAllConcat(s, Taken(s, calls[..n]), c.buf[..m], TakenFlushes(s, calls[..n]), c.env.flush[..m]);
    }
  }

  lemma {:induction false} RunConcat(s: State, a: Calls, b: Calls)
    ensures Run(s, a + b) == Run(Run(s, a), b)
    decreases |b|
  {
    hide AfterWrite;
    if b == [] {
      assert a + b == a;
    } else {
      var n := |b| - 1;
      RunConcat(s, a, b[..n]);
      assert (a + b)[..|a| + n] == a + b[..n];
    }
  }

  /** In every state a run reaches, the dropped entries, the ring and the staged bytes are, in order,
      exactly the bytes accepted; every entry is newline-terminated and fits its block; and the ring is
      the window of all entries. So each size test inside StorePartial passes. */
  lemma {:induction false} ConservationOverRuns(calls: Calls)
    ensures var t := Run(INIT, calls);
            && t.Sound()
            && Flat(t.evicted) + Flat(t.ring) + t.staged == Taken(INIT, calls)
  {
    RunIsOneFeed(INIT, calls);
    ConservationFromInit(Taken(INIT, calls), TakenFlushes(INIT, calls));
    RunSound(calls);
  }

  lemma {:induction false} RunSound(calls: Calls)
    ensures Run(INIT, calls).Sound()
  {
    if calls != [] {
      var n := |calls| - 1;
      RunSound(calls[..n]);
      WriteSound(Run(INIT, calls[..n]), calls[n].buf, calls[n].env);
    }
  }

  lemma WriteSound(s: State, buf: seq<byte>, env: Env)
    requires s.Sound() && env.Covers(buf)
    ensures AfterWrite(s, buf, env).Sound()
    ensures AfterWrite(s, buf, env).Whole() == s.Whole() + buf[..Accepted(s, buf, env)]
  {
    var m := Accepted(s, buf, env);
    if env.lock && Fits(s, buf) {
      Conservation(s, buf[..m], env.flush[..m]);
    } else {
      FedNone(s, buf, env);
      assert s.Whole() + buf[..0] == s.Whole();
    }
  }

  /** For every run: each entry ever committed is one line exactly if no accepted newline's flush was
      interrupted; the ring holds the last ten lines of everything accepted, and the stage what follows
      them, exactly if none of the last eleven was. */
  lemma LastTenLines(calls: Calls)
    ensures var t, w, f := Run(INIT, calls), Taken(INIT, calls), TakenFlushes(INIT, calls);
            && (t.History() == LinesOf(w) && t.staged == RestOf(w) <==> NoneRefused(w, f))
            && (t.ring == Window(LinesOf(w)) && t.staged == RestOf(w) <==> RecentGranted(w, f, CAPACITY + 1))
  {
    RunIsOneFeed(INIT, calls);
    StreamRefinement(Taken(INIT, calls), TakenFlushes(INIT, calls));
  }

  lemma Shorter(h: seq<seq<byte>>)
    requires |h| > CAPACITY && h[0] != []
    ensures |Flat(Window(h))| < |Flat(h)|
  {
    var n := |h| - CAPACITY;
    FlatConcat(h[..n], h[n..]);
    assert h == h[..n] + h[n..] && h[..n][0] == h[0];
  }

  lemma SameWindows(h: seq<seq<byte>>, lines: seq<seq<byte>>)
    requires forall i :: 0 <= i < |h| ==> EndsLine(h[i])
    requires forall i :: 0 <= i < |lines| ==> IsLine(lines[i])
    requires |h| >= CAPACITY && |lines| >= CAPACITY && Flat(Window(h)) == Flat(Window(lines))
    ensures Window(h) == Window(lines)
  {
    hide Flat, IsLine, EndsLine;
    assert forall i :: 0 <= i < CAPACITY ==> Window(h)[i] == h[|h| - CAPACITY + i];
    assert forall i :: 0 <= i < CAPACITY ==> Window(lines)[i] == lines[|lines| - CAPACITY + i];
    SameCountSameLines(Window(h), Window(lines));
  }

  /** Two ways of cutting the same bytes after newlines, lines being the finest one: their windows hold the
      same bytes exactly if everything is still in the window, or the windows are the same. */
  lemma SameWindowBytes(h: seq<seq<byte>>, lines: seq<seq<byte>>)
    requires forall i :: 0 <= i < |h| ==> EndsLine(h[i])
    requires forall i :: 0 <= i < |lines| ==> IsLine(lines[i])
    requires Flat(h) == Flat(lines)
    ensures Flat(Window(h)) == Flat(Window(lines)) <==> |lines| <= CAPACITY || Window(h) == Window(lines)
  {
    hide Flat, EndsLine, LinesOf, RestOf;
    AtLeastOneEach(h);
    assert Flat(lines) + [] == Flat(lines);
    SplitUnique(Flat(lines), lines, []);
    if |lines| > CAPACITY && Flat(Window(h)) == Flat(Window(lines)) {
      Shorter(lines);
      hide IsLine;
      SameWindows(h, lines);
    }
  }

  lemma SameBytes(t: State, w: seq<byte>)
    requires Flat(t.evicted) + Flat(t.ring) + t.staged == w && t.staged == RestOf(w)
    ensures Flat(t.History()) == Flat(LinesOf(w))
  {
    hide Flat, LinesOf, RestOf;
    FlatConcat(t.evicted, t.ring);
    LinesOfSplits(w);
    var n := |w| - |t.staged|;
    assert Flat(t.History()) == w[..n];
    assert Flat(LinesOf(w)) == w[..n];
  }

  lemma RecordsEnd(s: State)
    requires s.Sound()
    ensures forall i :: 0 <= i < |s.History()| ==> EndsLine(s.History()[i])
  {
    assert forall i :: 0 <= i < |s.History()| ==> IsRecord(s.History()[i]);
  }

  /** What a reader gets: once the last newline accepted has been flushed, the content is the bytes of the
      last ten lines exactly if there were no more than ten, or none of the last eleven was refused. */
  lemma LastTenLinesRead(calls: Calls)
    requires RecentGranted(Taken(INIT, calls), TakenFlushes(INIT, calls), 1)
    ensures var w := Taken(INIT, calls);
            Flat(Run(INIT, calls).ring) == Flat(Window(LinesOf(w))) <==>
              |LinesOf(w)| <= CAPACITY || RecentGranted(w, TakenFlushes(INIT, calls), CAPACITY + 1)
  {
    hide RecentGranted, FeedAll, Run, LinesOf, RestOf, Flat, IsLine, EndsLine, Taken, TakenFlushes, Last;
    var t, w, f := Run(INIT, calls), Taken(INIT, calls), TakenFlushes(INIT, calls);
    RunIsOneFeed(INIT, calls);
    RecentIff(w, f, 0);
    LastTenLines(calls);
    ConservationOverRuns(calls);
    SameBytes(t, w);
    RecordsEnd(t);
    LinesOfSplits(w);
    hide State.Sound;
    SameWindowBytes(t.History(), LinesOf(w));
  }

  lemma RecentPlain(w: seq<byte>, f: seq<bool>, p: seq<byte>, g: seq<bool>, n: nat)
    requires |f| == |w| && |g| == |p| && NEWLINE !in p
    ensures RecentGranted(w + p, f + g, n) <==> RecentGranted(w, f, n)
  {
    hide LinesOf;
    forall i | 0 <= i < |w|
      ensures NewlinesAfter(w + p, i) == NewlinesAfter(w, i) && (w + p)[i] == w[i] && (f + g)[i] == f[i]
    {
      assert (w + p)[i + 1..] == w[i + 1..] + p;
      LineCount(w[i + 1..], p);
      LinesOfNone(p);
    }
    assert forall i :: |w| <= i < |w + p| ==> (w + p)[i] == p[i - |w|];
    hide NewlinesAfter;
  }

  /** A granted line takes one place among the last newlines. */
  lemma RecentLine(w: seq<byte>, f: seq<bool>, line: seq<byte>, g: seq<bool>, n: nat)
    requires |f| == |w| && |g| == |line| && IsLine(line) && g[|line| - 1]
    ensures RecentGranted(w + line, f + g, n + 1) <==> RecentGranted(w, f, n)
  {
    hide RecentGranted;
    var m := |line| - 1;
    RecentSnoc(w + line, f + g, n + 1);
    assert (w + line)[..|w| + m] == w + line[..m] && (f + g)[..|w| + m] == f + g[..m];
    RecentPlain(w, f, line[..m], g[..m], n);
  }

  lemma LineCountOne(line: seq<byte>)
    requires IsLine(line)
    ensures |LinesOf(line)| == 1
  {
    assert line[..|line|] == line;
    LineEndIs(line, |line|);
  }

  lemma LineAccepted(s: State, c: Call)
    requires c.env.Covers(c.buf) && IsLine(c.buf) && WriteResult(s, c.buf, c.env) == Ok(|c.buf|)
    ensures Accepted(s, c.buf, c.env) == |c.buf|
  {
    forall m: nat | m < |c.buf|
      ensures NEWLINE in c.buf[m..]
    {
      LineTail(c.buf, m);
    }
  }

  lemma LineTail(line: seq<byte>, m: nat)
    requires IsLine(line) && m < |line|
    ensures NEWLINE in line[m..]
  {
    assert line[m..][|line| - 1 - m] == NEWLINE;
  }

  /** A write of one line that succeeds and is flushed leaves the last ten lines of everything accepted, that
      line included, exactly if they are no more than ten or the flushes at the ten newlines before it had
      gone through. */
  lemma LineLeavesLastTen(calls: Calls, c: Call)
    requires c.env.Covers(c.buf) && IsLine(c.buf) && c.env.flush[|c.buf| - 1]
    requires WriteResult(Run(INIT, calls), c.buf, c.env) == Ok(|c.buf|)
    ensures var w := Taken(INIT, calls);
            Flat(AfterWrite(Run(INIT, calls), c.buf, c.env).ring) == Flat(Window(LinesOf(w + c.buf))) <==>
              |LinesOf(w)| < CAPACITY || RecentGranted(w, TakenFlushes(INIT, calls), CAPACITY)
  {
    hide AfterWrite, Flat, LinesOf, RecentGranted, FirstStall, Run, Taken, TakenFlushes, Last;
    LineAccepted(Run(INIT, calls), c);
    CallTaken(INIT, calls, c);
    assert c.buf[..|c.buf|] == c.buf && c.env.flush[..|c.buf|] == c.env.flush;
    var w, f := Taken(INIT, calls), TakenFlushes(INIT, calls);
    RecentLine(w, f, c.buf, c.env.flush, 0);
    RecentLine(w, f, c.buf, c.env.flush, CAPACITY);
    RecentNever(w, f);
    LineCount(w, c.buf);
    LineCountOne(c.buf);
    hide IsLine;
    LastTenLinesRead(calls + [c]);
  }

  /** With every lock and block granted, a write that fits accepts all of its buffer and says so. */
  lemma AllWellAccepts(s: State, buf: seq<byte>)
    ensures Fits(s, buf) ==> Accepted(s, buf, AllWell(buf)) == |buf| && WriteResult(s, buf, AllWell(buf)) == Ok(|buf|)
    ensures !Fits(s, buf) ==> AfterWrite(s, buf, AllWell(buf)) == s && WriteResult(s, buf, AllWell(buf)) == Err(ENOMEM)
  {
    if Fits(s, buf) { AcceptedIs(s, buf, AllWell(buf), |buf|); }
  }

  /** A write that does not get its lock, or asks for more than one block in all, leaves the device alone. */
  lemma WriteRefused(s: State, buf: seq<byte>, env: Env)
    requires env.Covers(buf)
    ensures !env.lock ==> WriteResult(s, buf, env) == Err(ERESTARTSYS) && AfterWrite(s, buf, env) == s
    ensures env.lock && |s.staged| + |buf| > KMALLOC_MAX_SIZE ==>
              WriteResult(s, buf, env) == Err(ENOMEM) && AfterWrite(s, buf, env) == s
  {
    FedNone(s, buf, env);
  }

  /** Any other write adds its bytes to the stream up to the first block it asks for in vain, all of them if
      there is none, and is an error exactly if that cuts off a line it completes. */
  lemma WriteMeaning(s: State, buf: seq<byte>, env: Env, n: nat)
    requires s.Sound() && env.Covers(buf) && env.lock && |s.staged| + |buf| <= KMALLOC_MAX_SIZE
    requires n <= |buf| && BlocksGranted(s, buf, env, n)
    requires n < |buf| ==> AsksForBlock(s, buf, env, n) && !env.alloc[n]
    ensures AfterWrite(s, buf, env).Whole() == s.Whole() + buf[..n]
    ensures WriteResult(s, buf, env) == if NEWLINE in buf[n..] then Err(ENOMEM) else Ok(|buf|)
  {
    hide AfterWrite, FirstStall, BlocksGranted;
    StallsIff(s, buf, env, n);
    NoStallIff(s, buf, env, n);
    AcceptedIs(s, buf, env, n);
    WriteSound(s, buf, env);
  }

  /** The run that writes each buffer in turn and meets no failure. */
  function Smooth(bufs: seq<seq<byte>>): (calls: Calls)
    ensures |calls| == |bufs|
  {
    seq(|bufs|, i requires 0 <= i < |bufs| => Call(bufs[i], AllWell(bufs[i])))
  }

  /** No request on the way was too large. */
  ghost predicate AllFit(s: State, calls: Calls)
  {
    forall i :: 0 <= i < |calls| ==> Fits(Run(s, calls[..i]), calls[i].buf)
  }

  /** However a stream is cut into successful writes, the ring ends as the last ten of its lines. */
  lemma SmoothRuns(bufs: seq<seq<byte>>)
    requires AllFit(INIT, Smooth(bufs))
    ensures var t := Run(INIT, Smooth(bufs));
            t.ring == Window(LinesOf(Flat(bufs))) && t.staged == RestOf(Flat(bufs))
  {
    SmoothTakes(bufs, |bufs|);
    assert bufs[..|bufs|] == bufs && Smooth(bufs)[..|bufs|] == Smooth(bufs);
    hide LinesOf, RestOf, NewlinesAfter, Run, Smooth, Taken, TakenFlushes, Last;
    LastTenLines(Smooth(bufs));
  }

  lemma {:induction false} SmoothTakes(bufs: seq<seq<byte>>, k: nat)
    requires AllFit(INIT, Smooth(bufs)) && k <= |bufs|
    ensures Taken(INIT, Smooth(bufs)[..k]) == Flat(bufs[..k])
    ensures AllTrue(TakenFlushes(INIT, Smooth(bufs)[..k]))
    decreases k
  {
    hide FirstStall, FeedAll, AfterWrite, Run, AllTrue, Flat, Taken, TakenFlushes;
    FlatNone();
    if k == 0 {
      NothingTaken();
      assert Smooth(bufs)[..0] == [] && bufs[..0] == [];
    } else {
      var calls := Smooth(bufs)[..k];
      SmoothTakes(bufs, k - 1);
      assert calls[..k - 1] == Smooth(bufs)[..k - 1];
      SmoothStep(INIT, calls);
      assert bufs[..k] == bufs[..k - 1] + [bufs[k - 1]];
      FlatSnoc(bufs[..k - 1], bufs[k - 1]);
      TrueConcat(TakenFlushes(INIT, Smooth(bufs)[..k - 1]), bufs[k - 1]);
    }
  }

  ghost predicate AllTrue(flushes: seq<bool>) { forall i :: 0 <= i < |flushes| ==> flushes[i] }

  lemma FlatNone()
    ensures Flat<byte>([]) == []
  {
  }

  lemma NothingTaken()
    ensures Taken(INIT, []) == [] && AllTrue(TakenFlushes(INIT, []))
  {
  }

  lemma TrueConcat(f: seq<bool>, buf: seq<byte>)
    requires AllTrue(f)
    ensures AllTrue(f + AllWell(buf).flush)
  {
  }

  lemma SmoothStep(s: State, calls: Calls)
    requires calls != []
    requires var n := |calls| - 1; calls[n].env == AllWell(calls[n].buf) && Fits(Run(s, calls[..n]), calls[n].buf)
    ensures var n := |calls| - 1;
            && Taken(s, calls) == Taken(s, calls[..n]) + calls[n].buf
            && TakenFlushes(s, calls) == TakenFlushes(s, calls[..n]) + calls[n].env.flush
  {
    hide FirstStall, FeedAll;
    var c := calls[|calls| - 1];
    AllWellAccepts(Run(s, calls[..|calls| - 1]), c.buf);
    assert c.buf[..|c.buf|] == c.buf && c.env.flush[..|c.buf|] == c.env.flush;
  }

  // ---- One write as two ----

  function Joined(a: Env, b: Env): Env
  {
    Env(a.lock && b.lock, a.flush + b.flush, a.alloc + b.alloc)
  }

  /** Up to the split the joined write does what the first half does. */
  lemma JoinedFirst(s: State, a: seq<byte>, b: seq<byte>, ea: Env, eb: Env, p: nat)
    requires ea.Covers(a) && eb.Covers(b) && p <= |a|
    ensures Joined(ea, eb).Covers(a + b)
    ensures Fed(s, a + b, Joined(ea, eb), p) == Fed(s, a, ea, p)
    ensures p < |a| ==> (Stalls(s, a + b, Joined(ea, eb), p) <==> Stalls(s, a, ea, p))
  {
    assert (a + b)[..p] == a[..p] && (ea.flush + eb.flush)[..p] == ea.flush[..p];
  }

  /** Past it, what the second half does from there. */
  lemma JoinedSecond(s: State, a: seq<byte>, b: seq<byte>, ea: Env, eb: Env, q: nat)
    requires ea.Covers(a) && eb.Covers(b) && q <= |b|
    ensures Joined(ea, eb).Covers(a + b)
    ensures Fed(s, a + b, Joined(ea, eb), |a| + q) == Fed(Fed(s, a, ea, |a|), b, eb, q)
    ensures Stalls(s, a + b, Joined(ea, eb), |a| + q) <==> Stalls(Fed(s, a, ea, |a|), b, eb, q)
  {
    var e := Joined(ea, eb);
    assert (a + b)[..|a| + q] == a + b[..q] && e.flush[..|a| + q] == ea.flush + eb.flush[..q];
    assert a[..|a|] == a && ea.flush[..|a|] == ea.flush;
    FeedAllConcat(s, a, b[..q], ea.flush, eb.flush[..q]);
  }

  lemma JoinedNoStall(s: State, a: seq<byte>, b: seq<byte>, ea: Env, eb: Env, n: nat)
    requires ea.Covers(a) && eb.Covers(b) && n <= |a| + |b|
    requires NoStallBefore(s, a, ea, if n < |a| then n else |a|)
    requires n > |a| ==> NoStallBefore(Fed(s, a, ea, |a|), b, eb, n - |a|)
    ensures Joined(ea, eb).Covers(a + b) && NoStallBefore(s, a + b, Joined(ea, eb), n)
  {
    JoinedFirst(s, a, b, ea, eb, 0);
    forall p | 0 <= p < n
      ensures !Stalls(s, a + b, Joined(ea, eb), p)
    {
      if p < |a| { JoinedFirst(s, a, b, ea, eb, p); } else { JoinedSecond(s, a, b, ea, eb, p - |a|); }
    }
  }

  /** If a write of a + b passes the size check, so do a write of a and then one of b, wherever the split
      falls. The two ways end in the same state if and only if every block that a asks for is granted, or
      the second write adds nothing: otherwise one write stops at the missing block, two go on past it. */
  lemma ChunkingIndependence(s: State, a: seq<byte>, b: seq<byte>, ea: Env, eb: Env)
    requires s.Sound() && ea.Covers(a) && eb.Covers(b) && ea.lock && eb.lock && Fits(s, a + b)
    ensures var e := Joined(ea, eb);
            var mid := AfterWrite(s, a, ea);
            && Fits(s, a) && Fits(mid, b) && e.Covers(a + b)
            && (AfterWrite(mid, b, eb) == AfterWrite(s, a + b, e) <==>
                  BlocksGranted(s, a, ea, |a|) || b == [] || !eb.alloc[0])
  {
    hide AfterWrite, FirstStall, FeedAll, BlocksGranted;
    AllAcceptedIff(s, a, ea);
    if Accepted(s, a, ea) == |a| { ChunksMeet(s, a, b, ea, eb); } else { ChunksPart(s, a, b, ea, eb); }
  }

  /** The first half stores all it was given: the second goes on where one write would. */
  lemma ChunksMeet(s: State, a: seq<byte>, b: seq<byte>, ea: Env, eb: Env)
    requires s.Sound() && ea.Covers(a) && eb.Covers(b) && ea.lock && eb.lock && Fits(s, a + b)
    requires Accepted(s, a, ea) == |a|
    ensures var e, mid := Joined(ea, eb), AfterWrite(s, a, ea);
            Fits(mid, b) && e.Covers(a + b) && AfterWrite(mid, b, eb) == AfterWrite(s, a + b, e)
  {
    var mid := AfterWrite(s, a, ea);
    hide FeedAll, Stalls;
    Conservation(s, a[..|a|], ea.flush[..|a|]);
    var n := Accepted(mid, b, eb);
    JoinedNoStall(s, a, b, ea, eb, |a| + n);
    JoinedSecond(s, a, b, ea, eb, n);
    AcceptedIs(s, a + b, Joined(ea, eb), |a| + n);
  }

  /** It does not: one write stops there too, while the second of two starts afresh. */
  lemma ChunksPart(s: State, a: seq<byte>, b: seq<byte>, ea: Env, eb: Env)
    requires s.Sound() && ea.Covers(a) && eb.Covers(b) && ea.lock && eb.lock && Fits(s, a + b)
    requires Accepted(s, a, ea) < |a|
    ensures var e, mid := Joined(ea, eb), AfterWrite(s, a, ea);
            && Fits(mid, b) && e.Covers(a + b)
            && (AfterWrite(mid, b, eb) == AfterWrite(s, a + b, e) <==> b == [] || !eb.alloc[0])
  {
    var e, m := Joined(ea, eb), Accepted(s, a, ea);
    var mid := AfterWrite(s, a, ea);
    hide FeedAll;
    Conservation(s, a[..m], ea.flush[..m]);
    JoinedNoStall(s, a, b, ea, eb, m);
    JoinedFirst(s, a, b, ea, eb, m);
    AcceptedIs(s, a + b, e, m);
    var n := Accepted(mid, b, eb);
    Conservation(mid, b[..n], eb.flush[..n]);
    FedNone(mid, b, eb);
    assert |AfterWrite(mid, b, eb).Whole()| == |mid.Whole()| + n;
  }

  // ---- Bytes dropped without an error ----

  /** Where the part after the last newline starts. */
  function TailStart(buf: seq<byte>): (t: nat)
    ensures t <= |buf| && forall i :: t <= i < |buf| ==> buf[i] != NEWLINE
    ensures t > 0 ==> buf[t - 1] == NEWLINE
  {
    if buf == [] || buf[|buf| - 1] == NEWLINE then |buf| else TailStart(buf[..|buf| - 1])
  }

  lemma TailStartIs(buf: seq<byte>, m: nat)
    requires m <= |buf|
    ensures NEWLINE !in buf[m..] <==> m >= TailStart(buf)
    ensures m > TailStart(buf) ==> buf[m - 1] != NEWLINE
  {
    var t := TailStart(buf);
    if m < t { assert buf[m..][t - 1 - m] == buf[t - 1]; }
  }

  /** All of buf is in the stream afterwards exactly when all of it was accepted. */
  lemma WholeIff(s: State, buf: seq<byte>, env: Env)
    requires s.Sound() && env.Covers(buf)
    ensures AfterWrite(s, buf, env).Whole() == s.Whole() + buf <==> Accepted(s, buf, env) == |buf|
  {
    WriteSound(s, buf, env);
    var m := Accepted(s, buf, env);
    if m == |buf| {
      assert buf[..m] == buf;
    } else {
      assert |AfterWrite(s, buf, env).Whole()| == |s.Whole()| + m;
    }
  }

  /** aesd_write reports every byte as written although it did not keep them all, exactly when the block
      for the part after the last newline is the first one it asks for in vain. */
  lemma SilentDropIff(s: State, buf: seq<byte>, env: Env)
    requires s.Sound() && env.Covers(buf)
    ensures var t := TailStart(buf);
            WriteResult(s, buf, env) == Ok(|buf|) && AfterWrite(s, buf, env).Whole() != s.Whole() + buf <==>
              && env.lock && Fits(s, buf) && BlocksGranted(s, buf, env, t)
              && AsksForBlock(s, buf, env, t) && !env.alloc[t]
  {
    hide Fed, FirstStall, AfterWrite;
    WholeIff(s, buf, env);
    var m, t := Accepted(s, buf, env), TailStart(buf);
    TailStartIs(buf, m);
    StallsIff(s, buf, env, t);
    NoStallIff(s, buf, env, t);
    if env.lock && Fits(s, buf) {
      assert m < |buf| ==> Stalls(s, buf, env, m);
      if m < |buf| { StallsIff(s, buf, env, m); }
      if NoStallBefore(s, buf, env, t) && Stalls(s, buf, env, t) {
        AcceptedIs(s, buf, env, t);
      } else {
        assert m == |buf| || m != t;
      }
    }
  }

  /** Such a write exists: one byte, no newline, no block to be had. */
  lemma SilentDropExample()
    ensures var env := Env(true, [true], [false]);
            env.Covers([65]) && WriteResult(INIT, [65], env) == Ok(1) && AfterWrite(INIT, [65], env) == INIT
  {
    var env := Env(true, [true], [false]);
    FedNone(INIT, [65], env);
    AcceptedIs(INIT, [65], env, 0);
  }

  /** The two ways of ChunkingIndependence can part: with no block for the first byte and one for the second,
      two writes keep the second byte and one write keeps neither. */
  lemma ChunkingExample()
    ensures var ea, eb := Env(true, [true], [false]), Env(true, [true], [true]);
            && ea.Covers([65]) && eb.Covers([66]) && Joined(ea, eb).Covers([65] + [66])
            && AfterWrite(AfterWrite(INIT, [65], ea), [66], eb) == INIT.(staged := [66])
            && AfterWrite(INIT, [65] + [66], Joined(ea, eb)) == INIT
  {
    var ea, eb := Env(true, [true], [false]), Env(true, [true], [true]);
    SilentDropExample();
    AcceptedIs(INIT, [66], eb, 1);
    FedPlain(INIT, [66], eb, 0, 1);
    FedNone(INIT, [66], eb);
    FedNone(INIT, [65] + [66], Joined(ea, eb));
    assert Stalls(INIT, [65] + [66], Joined(ea, eb), 0);
  }
}
