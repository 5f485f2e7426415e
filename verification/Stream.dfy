/** The device as a byte-at-a-time automaton: what a write means, independently of how aesd_write
    cuts its buffer into segments and where the bytes are kept. */
module Stream {
  import opened Prelude
  import opened Rings
  import opened Lines

  /** Entries dropped so far, entries in the ring (oldest first), and the bytes staged. */
  datatype State = State(evicted: seq<seq<byte>>, ring: seq<seq<byte>>, staged: seq<byte>) {

    /** Every entry ever committed, oldest first. */
    function History(): seq<seq<byte>> { evicted + ring }

    /** Every byte the device ever accepted. */
    function Whole(): seq<byte> { Flat(History()) + staged }

    /** The ring is the window of the history, and every entry is newline-terminated and fits a block. */
    ghost predicate Sound()
    {
      && ring == Window(History())
      && |staged| <= KMALLOC_MAX_SIZE
      && forall i :: 0 <= i < |History()| ==> IsRecord(History()[i])
    }
  }

  const INIT := State([], [], [])

  ghost predicate IsRecord(r: seq<byte>)
  {
    0 < |r| <= KMALLOC_MAX_SIZE && r[|r| - 1] == NEWLINE
  }

  /** The staged bytes become the newest entry. */
  function Commit(s: State): State
  {
    State(s.evicted + Dropped(s.ring), Push(s.ring, s.staged), [])
  }

  /** One byte is accepted. flushed says whether the commit that a newline asks for gets the lock. */
  function Feed(s: State, b: byte, flushed: bool): State
  {
    var t := s.(staged := s.staged + [b]);
    if b == NEWLINE && flushed then Commit(t) else t
  }

  function FeedAll(s: State, bytes: seq<byte>, flushes: seq<bool>): State
    requires |flushes| == |bytes|
    decreases |bytes|
  {
    if bytes == [] then s
    else
      var n := |bytes| - 1;
      Feed(FeedAll(s, bytes[..n], flushes[..n]), bytes[n], flushes[n])
  }

  /** What one write meets: whether entryMutex is obtained, whether the flush at each newline obtains
      buffMutex, and whether kmalloc succeeds if the segment starting at a position asks for a block. */
  datatype Env = Env(lock: bool, flush: seq<bool>, alloc: seq<bool>) {
    predicate Covers(buf: seq<byte>) { |flush| == |buf| && |alloc| == |buf| }
  }

  function AllWell(buf: seq<byte>): (e: Env)
    ensures e.Covers(buf)
  {
    Env(true, seq(|buf|, _ => true), seq(|buf|, _ => true))
  }

  /** The whole request is measured against one block, before anything is stored. */
  predicate Fits(s: State, buf: seq<byte>)
  {
    |s.staged| + |buf| <= KMALLOC_MAX_SIZE
  }

  /** The state once the first n bytes of buf have been accepted. */
  function Fed(s: State, buf: seq<byte>, env: Env, n: nat): State
    requires env.Covers(buf) && n <= |buf|
  {
    FeedAll(s, buf[..n], env.flush[..n])
  }

  /** The byte at p finds no staging block, and cannot have one. */
  predicate Stalls(s: State, buf: seq<byte>, env: Env, p: nat)
    requires env.Covers(buf)
  {
    p < |buf| && Fed(s, buf, env, p).staged == [] && !env.alloc[p]
  }

  /** What a caller knows about that beforehand: a block is asked for at the first byte, if nothing is staged,
      and after each newline whose flush goes through. */
  predicate AsksForBlock(s: State, buf: seq<byte>, env: Env, p: nat)
    requires env.Covers(buf)
  {
    p < |buf| && if p == 0 then s.staged == [] else buf[p - 1] == NEWLINE && env.flush[p - 1]
  }

  /** Every block asked for before position n is granted. */
  ghost predicate BlocksGranted(s: State, buf: seq<byte>, env: Env, n: nat)
    requires env.Covers(buf)
  {
    forall p :: 0 <= p < n && AsksForBlock(s, buf, env, p) ==> env.alloc[p]
  }

  function FirstStall(s: State, buf: seq<byte>, env: Env, from: nat): (p: nat)
    requires env.Covers(buf) && from <= |buf|
    ensures from <= p <= |buf|
    ensures p < |buf| ==> Stalls(s, buf, env, p)
    ensures forall q :: from <= q < p ==> !Stalls(s, buf, env, q)
    decreases |buf| - from
  {
    if from == |buf| || Stalls(s, buf, env, from) then from else FirstStall(s, buf, env, from + 1)
  }

  /** How many bytes a write that is not refused accepts. */
  function Accepted(s: State, buf: seq<byte>, env: Env): nat
    requires env.Covers(buf)
  {
    if !env.lock || !Fits(s, buf) then 0 else FirstStall(s, buf, env, 0)
  }

  function AfterWrite(s: State, buf: seq<byte>, env: Env): State
    requires env.Covers(buf)
  {
    Fed(s, buf, env, Accepted(s, buf, env))
  }

  /** A stall in a line that buf completes is an error. A stall in the trailing part is not reported. */
  function WriteResult(s: State, buf: seq<byte>, env: Env): Ret
    requires env.Covers(buf)
  {
    if !env.lock then Err(ERESTARTSYS)
    else if !Fits(s, buf) then Err(ENOMEM)
    else if NEWLINE in buf[Accepted(s, buf, env)..] then Err(ENOMEM)
    else Ok(|buf|)
  }

  // ---- Feeding ----

  lemma {:induction false} FeedAllConcat(s: State, a: seq<byte>, b: seq<byte>, fa: seq<bool>, fb: seq<bool>)
    requires |fa| == |a| && |fb| == |b|
    ensures FeedAll(s, a + b, fa + fb) == FeedAll(FeedAll(s, a, fa), b, fb)
    decreases |b|
  {
    if b == [] {
      assert a + b == a && fa + fb == fa;
    } else {
      var n := |b| - 1;
      FeedAllConcat(s, a, b[..n], fa, fb[..n]);
      assert (a + b)[..|a| + n] == a + b[..n] && (fa + fb)[..|a| + n] == fa + fb[..n];
    }
  }

  lemma FedStep(s: State, buf: seq<byte>, env: Env, n: nat)
    requires env.Covers(buf) && n < |buf|
    ensures Fed(s, buf, env, n + 1) == Feed(Fed(s, buf, env, n), buf[n], env.flush[n])
  {
    assert buf[..n + 1][..n] == buf[..n] && env.flush[..n + 1][..n] == env.flush[..n];
  }

  /** Bytes without a newline only lengthen the staged bytes. */
  lemma {:induction false} FedPlain(s: State, buf: seq<byte>, env: Env, base: nat, n: nat)
    requires env.Covers(buf) && base <= n <= |buf|
    requires NEWLINE !in buf[base..n]
    ensures var t := Fed(s, buf, env, base); Fed(s, buf, env, n) == t.(staged := t.staged + buf[base..n])
    decreases n
  {
    if base < n {
      assert forall i :: base <= i < n - 1 ==> buf[i] == buf[base..n][i - base];
      FedPlain(s, buf, env, base, n - 1);
      FedStep(s, buf, env, n - 1);
      assert buf[n - 1] == buf[base..n][n - 1 - base];
      assert buf[base..n] == buf[base..n - 1] + [buf[n - 1]];
    }
  }

  /** Where a block is missing is decided by the byte before, its flush and the allocator alone: nothing
      is staged at p > 0 exactly after a newline whose flush went through. */
  lemma StallsIff(s: State, buf: seq<byte>, env: Env, p: nat)
    requires env.Covers(buf)
    ensures Stalls(s, buf, env, p) <==> AsksForBlock(s, buf, env, p) && !env.alloc[p]
  {
    if 0 < p < |buf| { FedStep(s, buf, env, p - 1); }
  }

  /** Accepting a whole line: all of it is staged, and committed if its flush goes through. */
  lemma FedLine(s: State, buf: seq<byte>, env: Env, base: nat, n: nat)
    requires env.Covers(buf) && base < n <= |buf|
    requires NEWLINE !in buf[base..n - 1] && buf[n - 1] == NEWLINE
    ensures var f := Fed(s, buf, env, base);
            var t := f.(staged := f.staged + buf[base..n]);
            Fed(s, buf, env, n) == if env.flush[n - 1] then Commit(t) else t
  {
    FedPlain(s, buf, env, base, n - 1);
    FedStep(s, buf, env, n - 1);
    var f := Fed(s, buf, env, base);
    assert buf[base..n] == buf[base..n - 1] + [buf[n - 1]];
    assert f.staged + buf[base..n] == f.staged + buf[base..n - 1] + [buf[n - 1]];
  }

  lemma FedNone(s: State, buf: seq<byte>, env: Env)
    requires env.Covers(buf)
    ensures Fed(s, buf, env, 0) == s
  {
  }

  ghost predicate NoStallBefore(s: State, buf: seq<byte>, env: Env, n: nat)
    requires env.Covers(buf)
  {
    forall p :: 0 <= p < n ==> !Stalls(s, buf, env, p)
  }

  lemma NoStallIff(s: State, buf: seq<byte>, env: Env, n: nat)
    requires env.Covers(buf)
    ensures NoStallBefore(s, buf, env, n) <==> BlocksGranted(s, buf, env, n)
  {
    hide Fed;
    forall p | 0 <= p < n
      ensures Stalls(s, buf, env, p) <==> !(AsksForBlock(s, buf, env, p) ==> env.alloc[p])
    {
      StallsIff(s, buf, env, p);
    }
  }

  /** All of buf is accepted, exactly if every block it asks for is granted. */
  lemma AllAcceptedIff(s: State, buf: seq<byte>, env: Env)
    requires env.Covers(buf) && env.lock && Fits(s, buf)
    ensures Accepted(s, buf, env) == |buf| <==> BlocksGranted(s, buf, env, |buf|)
  {
    NoStallIff(s, buf, env, |buf|);
    if NoStallBefore(s, buf, env, |buf|) { AcceptedIs(s, buf, env, |buf|); }
  }

  /** A stall can only be at the start of a segment. */
  lemma NoStallInside(s: State, buf: seq<byte>, env: Env, base: nat, n: nat)
    requires env.Covers(buf) && base <= n <= |buf|
    requires base < n ==> NEWLINE !in buf[base..n - 1] && !Stalls(s, buf, env, base)
    requires NoStallBefore(s, buf, env, base)
    ensures NoStallBefore(s, buf, env, n)
  {
    forall p | base < p < n
      ensures !Stalls(s, buf, env, p)
    {
      StallsIff(s, buf, env, p);
      assert buf[p - 1] == buf[base..n - 1][p - 1 - base];
    }
  }

  /** The first stall, or the end of the buffer if there is none, is what a write accepts. */
  lemma AcceptedIs(s: State, buf: seq<byte>, env: Env, n: nat)
    requires env.Covers(buf) && env.lock && Fits(s, buf) && n <= |buf|
    requires NoStallBefore(s, buf, env, n) && (n < |buf| ==> Stalls(s, buf, env, n))
    ensures Accepted(s, buf, env) == n
  {
  }

  lemma CommitHistory(s: State)
    requires |s.ring| <= CAPACITY
    ensures Commit(s).History() == s.History() + [s.staged]
    ensures Commit(s).Whole() == s.Whole()
  {
    FlatSnoc(s.History(), s.staged);
  }

  lemma FeedKeeps(s: State, b: byte, flushed: bool)
    requires s.ring == Window(s.History())
    ensures var t := Feed(s, b, flushed);
            && t.ring == Window(t.History()) && t.Whole() == s.Whole() + [b]
            && s.History() <= t.History() && |t.staged| <= |s.staged| + 1
            && (s.Sound() && |s.staged| < KMALLOC_MAX_SIZE ==> t.Sound())
  {
    hide Flat, Last, Push, Dropped;
    var t := s.(staged := s.staged + [b]);
    WindowPush(s.History(), t.staged);
    CommitHistory(t);
    assert t.History() == s.History();
  }

  /** No byte is lost, duplicated or reordered, whichever flushes fail; committed entries stay as they
      are and the ring stays the window of all of them; nothing outgrows its block. */
  lemma {:induction false} Conservation(s: State, bytes: seq<byte>, flushes: seq<bool>)
    requires |flushes| == |bytes| && s.ring == Window(s.History())
    ensures var t := FeedAll(s, bytes, flushes);
            && t.ring == Window(t.History()) && t.Whole() == s.Whole() + bytes
            && s.History() <= t.History() && |t.staged| <= |s.staged| + |bytes|
            && (s.Sound() && Fits(s, bytes) ==> t.Sound())
    decreases |bytes|
  {
    hide Flat, Commit, Window;
    if bytes == [] {
      assert s.Whole() + bytes == s.Whole();
    } else {
      var n := |bytes| - 1;
      Conservation(s, bytes[..n], flushes[..n]);
      FeedKeeps(FeedAll(s, bytes[..n], flushes[..n]), bytes[n], flushes[n]);
      assert s.Whole() + bytes == s.Whole() + bytes[..n] + [bytes[n]];
    }
  }

  /** From the empty device the accepted bytes are all there, in order. */
  lemma ConservationFromInit(bytes: seq<byte>, flushes: seq<bool>)
    requires |flushes| == |bytes|
    ensures var t := FeedAll(INIT, bytes, flushes); Flat(t.evicted) + Flat(t.ring) + t.staged == bytes
  {
    assert INIT.History() == [] && INIT.Whole() == [];
    Conservation(INIT, bytes, flushes);
    var t := FeedAll(INIT, bytes, flushes);
    FlatConcat(t.evicted, t.ring);
  }

  // ---- Lines ----

  /** Every committed entry is one whole line, and no newline is waiting. */
  ghost predicate Clean(s: State)
  {
    NEWLINE !in s.staged && forall i :: 0 <= i < |s.History()| ==> IsLine(s.History()[i])
  }

  /** The flush at every newline obtained its lock. */
  ghost predicate NoneRefused(bytes: seq<byte>, flushes: seq<bool>)
    requires |flushes| == |bytes|
  {
    forall i :: 0 <= i < |bytes| && bytes[i] == NEWLINE ==> flushes[i]
  }

  lemma NoneRefusedConcat(a: seq<byte>, fa: seq<bool>, b: seq<byte>, fb: seq<bool>)
    requires |fa| == |a| && |fb| == |b| && NoneRefused(a, fa) && NoneRefused(b, fb)
    ensures NoneRefused(a + b, fa + fb)
  {
  }

  lemma FeedClean(s: State, b: byte, flushed: bool)
    requires |s.ring| <= CAPACITY
    ensures Clean(Feed(s, b, flushed)) <==> Clean(s) && (b == NEWLINE ==> flushed)
  {
    var t := s.(staged := s.staged + [b]);
    var h := s.History();
    CommitHistory(t);
    assert t.History() == h && t.staged[|s.staged|] == b && t.staged[..|s.staged|] == s.staged;
    if b == NEWLINE && flushed {
      var h' := Commit(t).History();
      assert h' == h + [t.staged];
      assert IsLine(t.staged) <==> NEWLINE !in s.staged;
      assert forall i :: 0 <= i < |h| ==> h'[i] == h[i];
      assert h'[|h|] == t.staged;
    }
  }

  /** Exactly when no flush was refused at an accepted newline is the history the list of whole lines. */
  lemma {:induction false} CleanIff(s: State, bytes: seq<byte>, flushes: seq<bool>)
    requires |flushes| == |bytes| && s.ring == Window(s.History())
    ensures Clean(FeedAll(s, bytes, flushes)) <==> Clean(s) && NoneRefused(bytes, flushes)
    decreases |bytes|
  {
    if bytes != [] {
      var n := |bytes| - 1;
      CleanIff(s, bytes[..n], flushes[..n]);
      Conservation(s, bytes[..n], flushes[..n]);
      FeedClean(FeedAll(s, bytes[..n], flushes[..n]), bytes[n], flushes[n]);
    }
  }

  /** How many newlines follow place i. */
  function NewlinesAfter(bytes: seq<byte>, i: nat): nat
    requires i < |bytes|
  {
    |LinesOf(bytes[i + 1..])|
  }

  /** The flush at each of the last n newlines obtained its lock: those that fewer than n others follow. */
  ghost predicate RecentGranted(bytes: seq<byte>, flushes: seq<bool>, n: nat)
    requires |flushes| == |bytes|
  {
    forall i :: 0 <= i < |bytes| && bytes[i] == NEWLINE && NewlinesAfter(bytes, i) < n ==> flushes[i]
  }

  /** One more byte: a newline must have been granted itself, and takes one place among the last n. */
  lemma RecentSnoc(bytes: seq<byte>, flushes: seq<bool>, n: nat)
    requires |flushes| == |bytes| > 0
    ensures var m := |bytes| - 1;
            RecentGranted(bytes, flushes, n) <==>
              if bytes[m] == NEWLINE && n > 0 then flushes[m] && RecentGranted(bytes[..m], flushes[..m], n - 1)
              else RecentGranted(bytes[..m], flushes[..m], n)
  {
    hide LinesOf;
    var m := |bytes| - 1;
    var n' := if bytes[m] == NEWLINE && n > 0 then n - 1 else n;
    forall i | 0 <= i < m
      ensures NewlinesAfter(bytes, i) < n <==> NewlinesAfter(bytes[..m], i) < n'
    {
      assert bytes[i + 1..] == bytes[..m][i + 1..] + [bytes[m]];
      LinesSnoc(bytes[..m][i + 1..], bytes[m]);
    }
    assert bytes[m + 1..] == [];
    LinesOfNone([]);
    assert forall i :: 0 <= i < m ==> bytes[..m][i] == bytes[i] && flushes[..m][i] == flushes[i];
  }

  /** The last n entries are the last n lines, and the rest is staged. */
  ghost predicate RecentLines(t: State, bytes: seq<byte>, n: nat)
  {
    Last(t.History(), n) == Last(LinesOf(bytes), n) && t.staged == RestOf(bytes)
  }

  lemma SnocEqual<T>(g: seq<T>, h: seq<T>, x: T, y: T)
    ensures g + [x] == h + [y] <==> g == h && x == y
  {
    if g + [x] == h + [y] { assert g == (g + [x])[..|g|] == (h + [y])[..|h|] == h; }
  }

  lemma LastSnoc<T>(g: seq<T>, h: seq<T>, x: T, y: T, n: nat)
    ensures Last(g + [x], n) == Last(h + [y], n) <==> n == 0 || (Last(g, n - 1) == Last(h, n - 1) && x == y)
  {
    if n > 0 {
      assert Last(g + [x], n) == Last(g, n - 1) + [x];
      assert Last(h + [y], n) == Last(h, n - 1) + [y];
      SnocEqual(Last(g, n - 1), Last(h, n - 1), x, y);
    } else {
      assert Last(g + [x], 0) == [] == Last(h + [y], 0);
    }
  }

  lemma RecentStep(s: State, bytes: seq<byte>, b: byte, flushed: bool, n: nat)
    requires |s.ring| <= CAPACITY
    ensures RecentLines(Feed(s, b, flushed), bytes + [b], n) <==>
              if b != NEWLINE then RecentLines(s, bytes, n) else flushed && (n > 0 ==> RecentLines(s, bytes, n - 1))
  {
    hide LinesOf, RestOf, Last;
    var t := s.(staged := s.staged + [b]);
    LinesSnoc(bytes, b);
    CommitHistory(t);
    assert t.History() == s.History();
    SnocEqual(s.staged, RestOf(bytes), b, b);
    LastSnoc(s.History(), LinesOf(bytes), t.staged, RestOf(bytes) + [b], n);
  }

  /** Exactly when the flush at each of the last n + 1 newlines went through are the last n entries the
      last n lines, with the bytes after the last newline staged. */
  lemma {:induction false} RecentIff(bytes: seq<byte>, flushes: seq<bool>, n: nat)
    requires |flushes| == |bytes|
    ensures RecentLines(FeedAll(INIT, bytes, flushes), bytes, n) <==> RecentGranted(bytes, flushes, n + 1)
    decreases |bytes|
  {
    hide Last, RecentLines, RecentGranted, Feed;
    RecentNone(n);
    if bytes != [] {
      var m := |bytes| - 1;
      var t := FeedAll(INIT, bytes[..m], flushes[..m]);
      Conservation(INIT, bytes[..m], flushes[..m]);
      RecentStep(t, bytes[..m], bytes[m], flushes[m], n);
      assert bytes[..m] + [bytes[m]] == bytes;
      RecentSnoc(bytes, flushes, n + 1);
      if bytes[m] != NEWLINE {
        RecentIff(bytes[..m], flushes[..m], n);
      } else if n > 0 {
        RecentIff(bytes[..m], flushes[..m], n - 1);
      } else {
        RecentNever(bytes[..m], flushes[..m]);
      }
    }
  }

  lemma RecentNone(n: nat)
    ensures RecentLines(INIT, [], n) && RecentGranted([], [], n + 1) && INIT.ring == Window(INIT.History())
  {
    LinesOfNone([]);
    assert INIT.History() == [];
  }

  lemma RecentNever(bytes: seq<byte>, flushes: seq<bool>)
    requires |flushes| == |bytes|
    ensures RecentGranted(bytes, flushes, 0)
  {
  }

  /** From the empty device. Every entry is one line if and only if no flush was ever refused at an accepted
      newline. The ring reads as the last CAPACITY lines of everything accepted, with the bytes after the
      last newline staged, if and only if none of the last CAPACITY + 1 was refused: a refusal glues two
      lines together, and is forgotten once the entry they share has left the window. */
  lemma StreamRefinement(bytes: seq<byte>, flushes: seq<bool>)
    requires |flushes| == |bytes|
    ensures var t := FeedAll(INIT, bytes, flushes);
            && (t.History() == LinesOf(bytes) && t.staged == RestOf(bytes) <==> NoneRefused(bytes, flushes))
            && (t.ring == Window(LinesOf(bytes)) && t.staged == RestOf(bytes) <==>
                  RecentGranted(bytes, flushes, CAPACITY + 1))
  {
    var t := FeedAll(INIT, bytes, flushes);
    assert INIT.History() == [] && INIT.Whole() == [];
    hide RecentGranted, Last;
    Conservation(INIT, bytes, flushes);
    CleanIff(INIT, bytes, flushes);
    LinesOfSplits(bytes);
    if Clean(t) { SplitUnique(bytes, t.History(), t.staged); }
    RecentIff(bytes, flushes, CAPACITY);
  }

  lemma NewlinesAfterConcat(a: seq<byte>, b: seq<byte>, i: nat)
    requires i < |a|
    ensures NewlinesAfter(a + b, i) >= |LinesOf(b)|
  {
    hide LinesOf;
    assert (a + b)[i + 1..] == a[i + 1..] + b;
    LineCount(a[i + 1..], b);
  }

  lemma GrantedConcat(a: seq<byte>, fa: seq<bool>, b: seq<byte>, fb: seq<bool>, n: nat)
    requires |fa| == |a| && |fb| == |b| && NoneRefused(b, fb) && |LinesOf(b)| >= n
    ensures RecentGranted(a + b, fa + fb, n)
  {
    hide NewlinesAfter, LinesOf;
    forall i | 0 <= i < |a + b| && (a + b)[i] == NEWLINE && NewlinesAfter(a + b, i) < n
      ensures (fa + fb)[i]
    {
      if i < |a| {
        NewlinesAfterConcat(a, b, i);
        assert false;
      }
      assert b[i - |a|] == NEWLINE;
    }
  }

  /** Whatever was refused before, once more than CAPACITY further lines have gone through the ring is
      again the last CAPACITY lines of everything. */
  lemma RefusalsAreForgotten(a: seq<byte>, fa: seq<bool>, b: seq<byte>, fb: seq<bool>)
    requires |fa| == |a| && |fb| == |b| && NoneRefused(b, fb) && |LinesOf(b)| > CAPACITY
    ensures var t := FeedAll(INIT, a + b, fa + fb);
            t.ring == Window(LinesOf(a + b)) && t.staged == RestOf(a + b)
  {
    hide LinesOf, RestOf, Last, RecentGranted, NoneRefused, FeedAll;
    GrantedConcat(a, fa, b, fb, CAPACITY + 1);
    StreamRefinement(a + b, fa + fb);
  }

  /** One refused flush is enough: two lines come out as one entry. */
  lemma RefusalExample()
    ensures var bytes := [65, NEWLINE, 66, NEWLINE];
            && FeedAll(INIT, bytes, [true, false, true, true]).ring == [bytes]
            && Window(LinesOf(bytes)) == [[65, NEWLINE], [66, NEWLINE]]
  {
    hide FeedAll, LinesOf;
    var a: seq<byte>, b: seq<byte> := [65, NEWLINE], [66, NEWLINE];
    assert a + b == [65, NEWLINE, 66, NEWLINE] && [true, false] + [true, true] == [true, false, true, true];
    TwoLines(a, b);
    FeedLine(INIT, a, [true, false]);
    assert INIT.staged + a == a;
    FeedLine(INIT.(staged := a), b, [true, true]);
    FeedAllConcat(INIT, a, b, [true, false], [true, true]);
  }

  lemma TwoLines(a: seq<byte>, b: seq<byte>)
    requires IsLine(a) && IsLine(b)
    ensures LinesOf(a + b) == [a, b]
  {
    hide LinesOf, RestOf, IsLine;
    SplitCons(b, [], [], []);
    assert b + [] == b;
    SplitCons(a, b, [b], []);
    SplitUnique(a + b, [a] + [b], []);
  }

  lemma FeedLine(s: State, line: seq<byte>, flushes: seq<bool>)
    requires IsLine(line) && |flushes| == |line|
    ensures var t := s.(staged := s.staged + line);
            FeedAll(s, line, flushes) == if flushes[|line| - 1] then Commit(t) else t
  {
    hide Commit, FeedAll;
    var env := Env(true, flushes, flushes);
    FedNone(s, line, env);
    assert line[0..|line| - 1] == line[..|line| - 1] && line[0..|line|] == line[..|line|] == line;
    assert flushes[..|line|] == flushes;
    FedLine(s, line, env, 0, |line|);
  }
}
