/** The server opens the device for each batch of requests and closes it again: what holds over any number
    of such visits, one after another. */
module Visits {
  import opened Prelude
  import opened Rings
  import opened Lines
  import opened Stream
  import opened Content
  import opened Runs
  import opened Replies
  import opened Sessions

  /** The device while no file is open on it. */
  datatype Idle = Idle(dev: State, lseek: loff)

  const ZEROED := Idle(INIT, 0)

  type Batches = bs: seq<seq<Request>> | forall k :: 0 <= k < |bs| ==> Served(bs[k]) witness []

  /** Opening starts at file position 0 and leaves the shared seek position as it is; closing, also when
      the process exits, resets it. */
  function Open(d: Idle): Session { Session(d.dev, d.lseek, 0, [], false) }

  function Close(s: Session): Idle { Idle(s.dev, 0) }

  function AfterVisits(d: Idle, batches: Batches): Idle
    decreases |batches|, 1
  {
    if batches == [] then d else Close(LastVisit(d, batches))
  }

  /** The last of these visits, up to its close. */
  function LastVisit(d: Idle, batches: Batches): Session
    requires batches != []
    decreases |batches|, 0
  {
    var n := |batches| - 1;
    ServeAll(Open(AfterVisits(d, batches[..n])), batches[n])
  }

  /** The writes that serving qs comes to: none for a seek, and none once the process has exited. */
  function Writes(s: Session, qs: seq<Request>): Calls
    requires Served(qs)
    decreases |qs|
  {
    if qs == [] then []
    else
      (if s.failed || qs[0].seek.Some? then [] else [Call(qs[0].segment, qs[0].env)])
      + Writes(Serve(s, qs[0]), qs[1..])
  }

  function AllWrites(d: Idle, batches: Batches): Calls
  {
    if batches == [] then []
    else
      var n := |batches| - 1;
      AllWrites(d, batches[..n]) + Writes(Open(AfterVisits(d, batches[..n])), batches[n])
  }

  /** To the device a session is the run of its writes: seeks, replies and the way they interleave with the
      writes leave no trace in it. */
  lemma {:induction false} SessionIsRun(s: Session, qs: seq<Request>)
    requires Served(qs)
    ensures ServeAll(s, qs).dev == Run(s.dev, Writes(s, qs))
    decreases |qs|
  {
    hide AfterWrite, WriteResult, Reply, Seek;
    if qs != [] {
      var first := Writes(s, qs)[..|Writes(s, qs)| - |Writes(Serve(s, qs[0]), qs[1..])|];
      SessionIsRun(Serve(s, qs[0]), qs[1..]);
      RunConcat(s.dev, first, Writes(Serve(s, qs[0]), qs[1..]));
      RequestIsRun(s, qs[0]);
    }
  }

  lemma RequestIsRun(s: Session, q: Request)
    requires q.env.Covers(q.segment)
    ensures Serve(s, q).dev == Run(s.dev, if s.failed || q.seek.Some? then [] else [Call(q.segment, q.env)])
  {
    hide AfterWrite, WriteResult;
    assert [Call(q.segment, q.env)][..0] == [];
  }

  /** Whatever clients have sent before, also through failures, every visit starts with the seek position at
      0 and on a device that is a run of the writes made so far. */
  lemma {:induction false} StartsAfresh(batches: Batches)
    ensures AfterVisits(ZEROED, batches) == Idle(Run(INIT, AllWrites(ZEROED, batches)), 0)
    ensures AfterVisits(ZEROED, batches).dev.Sound()
  {
    hide ServeAll, Writes;
    if batches != [] {
      var n := |batches| - 1;
      StartsAfresh(batches[..n]);
      var d := AfterVisits(ZEROED, batches[..n]);
      SessionIsRun(Open(d), batches[n]);
      RunConcat(INIT, AllWrites(ZEROED, batches[..n]), Writes(Open(d), batches[n]));
    }
    RunSound(AllWrites(ZEROED, batches));
  }

  // ---- The first reply of any visit ----

  lemma {:induction false} RepliesStay(s: Session, qs: seq<Request>)
    requires Served(qs)
    ensures s.sent <= ServeAll(s, qs).sent
    decreases |qs|
  {
    hide Serve;
    if qs != [] {
      OneReply(s, qs[0]);
      RepliesStay(Serve(s, qs[0]), qs[1..]);
    }
  }

  lemma OneReply(s: Session, q: Request)
    requires q.env.Covers(q.segment)
    ensures s.sent <= Serve(s, q).sent
  {
    hide AfterWrite, WriteResult, SeekTarget, Delivered;
  }

  /** The first reply of a session is that to its first request. */
  lemma FirstReply(d: Idle, qs: seq<Request>)
    requires Served(qs) && qs != [] && Serve(Open(d), qs[0]).sent != []
    ensures var sent := ServeAll(Open(d), qs).sent; sent != [] && sent[0] == Serve(Open(d), qs[0]).sent[0]
  {
    hide Serve;
    RepliesStay(Serve(Open(d), qs[0]), qs[1..]);
  }

  /** How a session that starts on device d, with the seek position at 0, answers its first request. A segment
      written is answered with the window after it, from its start, and a seek to a byte of a live command from
      that byte. The client gets all of that, for the seek the rest of the command and all later ones,
      exactly if no read is interrupted before the end. */
  ghost predicate Echoed(d: State, q: Request, sent: seq<seq<byte>>)
    requires q.env.Covers(q.segment)
  {
    match q.seek
    case None =>
      WriteResult(d, q.segment, q.env) == Ok(|q.segment|) ==>
        var ring := AfterWrite(d, q.segment, q.env).ring;
        && sent != [] && sent[0] == Delivered(ring, 0, q.cut)
        && (sent[0] == Flat(ring) <==> Uncut(ring, 0, q.cut))
    case Some((cmd, off)) =>
      q.env.lock && cmd < |d.ring| && off < |d.ring[cmd]| ==>
        var t := SeekTarget(d.ring, cmd, off);
        && t.Some? && sent != [] && sent[0] == Delivered(d.ring, t.value, q.cut)
        && (sent[0] == d.ring[cmd][off..] + Flat(d.ring[cmd + 1..]) <==> Uncut(d.ring, t.value, q.cut))
  }

  /** End to end: over any sequence of sessions from the zeroed device, each opened, served and closed before
      the next, every one of them answers its first request so, on the run of all writes made before it. */
  lemma EchoLaw(batches: Batches, k: nat)
    requires k < |batches| && batches[k] != []
    ensures Echoed(Run(INIT, AllWrites(ZEROED, batches[..k])), batches[k][0],
                   LastVisit(ZEROED, batches[..k + 1]).sent)
  {
    hide Echoed, Serve, ServeAll, Run, AllWrites;
    StartsAfresh(batches[..k]);
    assert batches[..k + 1][..k] == batches[..k];
    EchoOfFirst(Run(INIT, AllWrites(ZEROED, batches[..k])), batches[k]);
  }

  lemma EchoOfFirst(d: State, qs: seq<Request>)
    requires d.Sound() && Served(qs) && qs != []
    ensures Echoed(d, qs[0], ServeAll(Open(Idle(d, 0)), qs).sent)
  {
    hide AfterWrite, WriteResult, Flat, Delivered, Uncut, ServeAll, SeekTarget, State.Sound;
    var q := qs[0];
    match q.seek {
      case None =>
        if WriteResult(d, q.segment, q.env) == Ok(|q.segment|) { EchoOfWrite(d, qs); }
      case Some((cmd, off)) =>
        if q.env.lock && cmd < |d.ring| && off < |d.ring[cmd]| { EchoOfSeek(d, qs, cmd, off); }
    }
  }

  lemma EchoOfWrite(d: State, qs: seq<Request>)
    requires Served(qs) && qs != [] && qs[0].seek == None
    requires WriteResult(d, qs[0].segment, qs[0].env) == Ok(|qs[0].segment|)
    ensures var (q, sent) := (qs[0], ServeAll(Open(Idle(d, 0)), qs).sent);
            var ring := AfterWrite(d, q.segment, q.env).ring;
            && sent != [] && sent[0] == Delivered(ring, 0, q.cut)
            && (sent[0] == Flat(ring) <==> Uncut(ring, 0, q.cut))
  {
    hide AfterWrite, WriteResult, Serve, Flat, Delivered, Uncut, Suffix, ServeAll;
    var q := qs[0];
    var ring := AfterWrite(d, q.segment, q.env).ring;
    FirstWriteReply(Open(Idle(d, 0)), q);
    UncutWhole(ring, 0, q.cut);
    SuffixAll(Flat(ring));
    FirstReply(Idle(d, 0), qs);
  }

  lemma EchoOfSeek(d: State, qs: seq<Request>, cmd: u32, off: u32)
    requires d.Sound() && Served(qs) && qs != [] && qs[0].seek == Some((cmd, off)) && qs[0].env.lock
    requires cmd < |d.ring| && off < |d.ring[cmd]|
    ensures var (q, sent, t) := (qs[0], ServeAll(Open(Idle(d, 0)), qs).sent, SeekTarget(d.ring, cmd, off));
            && t.Some? && sent != [] && sent[0] == Delivered(d.ring, t.value, q.cut)
            && (sent[0] == d.ring[cmd][off..] + Flat(d.ring[cmd + 1..]) <==> Uncut(d.ring, t.value, q.cut))
  {
    hide Serve, Flat, Delivered, Uncut, Suffix, ServeAll, SeekTarget, State.Sound;
    FirstSeekReply(Open(Idle(d, 0)), qs[0], cmd, off);
    UncutWhole(d.ring, SeekTarget(d.ring, cmd, off).value, qs[0].cut);
    FirstReply(Idle(d, 0), qs);
  }

  /** If the line's flush goes through, that window is the last ten lines of everything the device ever
      accepted, that line included, exactly if those were no more than ten, or the flushes at the ten
      newlines before it had gone through. If it does not, the window is the one from before. */
  lemma LastTenLinesEchoed(batches: Batches, k: nat)
    requires k < |batches| && batches[k] != []
    requires var (d, q) := (AfterVisits(ZEROED, batches[..k]).dev, batches[k][0]);
             && q.seek == None && IsLine(q.segment) && WriteResult(d, q.segment, q.env) == Ok(|q.segment|)
             && Uncut(AfterWrite(d, q.segment, q.env).ring, 0, q.cut)
    ensures var before := AllWrites(ZEROED, batches[..k]);
            var (w, q) := (Taken(INIT, before), batches[k][0]);
            var sent := LastVisit(ZEROED, batches[..k + 1]).sent;
            sent != [] && if q.env.flush[|q.segment| - 1] then
              sent[0] == Flat(Window(LinesOf(w + q.segment))) <==>
                |LinesOf(w)| < CAPACITY || RecentGranted(w, TakenFlushes(INIT, before), CAPACITY)
            else sent[0] == Flat(Run(INIT, before).ring)
  {
    hide AfterWrite, Serve, Flat, LinesOf, RecentGranted, LastVisit, AllWrites, IsLine, FirstStall;
    hide AfterVisits, WriteResult, Last, Uncut, Delivered, SeekTarget;
    EchoLaw(batches, k);
    StartsAfresh(batches[..k]);
    var q := batches[k][0];
    var c := Call(q.segment, q.env);
    LineNotEmpty(q.segment);
    if q.env.flush[|q.segment| - 1] {
      LineLeavesLastTen(AllWrites(ZEROED, batches[..k]), c);
    } else {
      LineOnlyStaged(Run(INIT, AllWrites(ZEROED, batches[..k])), c);
    }
  }

  lemma LineNotEmpty(line: seq<byte>)
    requires IsLine(line)
    ensures line != []
  {
  }

  /** A line whose flush is refused leaves the ring alone. */
  lemma LineOnlyStaged(d: State, c: Call)
    requires c.env.Covers(c.buf) && IsLine(c.buf) && WriteResult(d, c.buf, c.env) == Ok(|c.buf|)
    requires !c.env.flush[|c.buf| - 1]
    ensures AfterWrite(d, c.buf, c.env).ring == d.ring
  {
    LineAccepted(d, c);
    hide WriteResult, FeedAll, FirstStall;
    FedNone(d, c.buf, c.env);
    assert c.buf[0..|c.buf| - 1] == c.buf[..|c.buf| - 1];
    FedLine(d, c.buf, c.env, 0, |c.buf|);
  }

  // ---- All the replies of a session ----

  /** The largest content the first i of these writes had left behind. */
  function HighWater(d: State, calls: Calls, i: nat): nat
    requires i <= |calls|
  {
    if i == 0 then 0
    else
      var (before, now) := (HighWater(d, calls, i - 1), |Flat(Run(d, calls[..i]).ring)|);
      if before < now then now else before
  }

  /** Reply i is what the content left by write i has beyond the largest content before it. A write that
      comes back short is the last one, and is not answered. */
  ghost predicate Told(t: Session, d: State, calls: Calls)
  {
    && t.dev == Run(d, calls) && t.dev.Sound() && t.lseek == 0
    && (if t.failed then |t.sent| + 1 == |calls| else |t.sent| == |calls|)
    && (forall i :: 0 <= i < |t.sent| ==> t.sent[i] == ReplyTo(d, calls, i))
    && (!t.failed ==> ActualPos(t.fPos, 0) == HighWater(d, calls, |calls|))
  }

  function ReplyTo(d: State, calls: Calls, i: nat): seq<byte>
    requires i < |calls|
  {
    Suffix(Flat(Run(d, calls[..i + 1]).ring), HighWater(d, calls, i))
  }

  lemma {:induction false} HighWaterSnoc(d: State, calls: Calls, c: Call, i: nat)
    requires c.env.Covers(c.buf) && i <= |calls|
    ensures HighWater(d, calls + [c], i) == HighWater(d, calls, i)
    ensures i < |calls| ==> ReplyTo(d, calls + [c], i) == ReplyTo(d, calls, i)
    decreases i
  {
    hide Run, Flat, Suffix;
    assert (calls + [c])[..i] == calls[..i];
    if i < |calls| { assert (calls + [c])[..i + 1] == calls[..i + 1]; }
    if i > 0 { HighWaterSnoc(d, calls, c, i - 1); }
  }

  lemma {:induction false} WritesSnoc(s: Session, most: seq<Request>, q: Request)
    requires Served(most) && q.env.Covers(q.segment)
    ensures Served(most + [q])
    ensures Writes(s, most + [q]) == Writes(s, most)
              + (if ServeAll(s, most).failed || q.seek.Some? then [] else [Call(q.segment, q.env)])
    decreases |most|
  {
    hide Serve;
    if most == [] {
      assert (most + [q])[1..] == [];
    } else {
      WritesSnoc(Serve(s, most[0]), most[1..], q);
      assert (most + [q])[1..] == most[1..] + [q];
    }
  }

  /** One more reply in the row. */
  lemma RepliesMore(sent: seq<seq<byte>>, d: State, calls: Calls, c: Call)
    requires c.env.Covers(c.buf) && |sent| == |calls| && forall i :: 0 <= i < |sent| ==> sent[i] == ReplyTo(d, calls, i)
    ensures var (more, all) := (calls + [c], sent + [ReplyTo(d, calls + [c], |calls|)]);
            && (forall i :: 0 <= i < |sent| ==> sent[i] == ReplyTo(d, more, i))
            && (forall i :: 0 <= i < |all| ==> all[i] == ReplyTo(d, more, i))
  {
    hide ReplyTo;
    forall i | 0 <= i < |calls|
      ensures ReplyTo(d, calls + [c], i) == ReplyTo(d, calls, i)
    {
      HighWaterSnoc(d, calls, c, i);
    }
  }

  /** One more write, whatever it meets. */
  lemma ToldMore(t: Session, d: State, calls: Calls, q: Request)
    requires Told(t, d, calls) && !t.failed && q.env.Covers(q.segment) && q.seek == None && q.cut == None
    ensures Told(Serve(t, q), d, calls + [Call(q.segment, q.env)])
  {
    hide Flat, Suffix, ActualPos, AfterWrite, WriteResult, State.Sound, HighWater, ReplyTo, Received, Run, ToLoff;
    var c := Call(q.segment, q.env);
    CallTaken(d, calls, c);
    WriteSound(t.dev, c.buf, c.env);
    RepliesMore(t.sent, d, calls, c);
    HighWaterSnoc(d, calls, c, |calls|);
    WaterRises(d, calls + [c]);
    ReplyMoves(t.(dev := AfterWrite(t.dev, c.buf, c.env)));
  }

  lemma WaterRises(d: State, calls: Calls)
    requires calls != []
    ensures var (n, total) := (|calls| - 1, |Flat(Run(d, calls).ring)|);
            && ReplyTo(d, calls, n) == Suffix(Flat(Run(d, calls).ring), HighWater(d, calls, n))
            && HighWater(d, calls, |calls|) == if HighWater(d, calls, n) <= total then total else HighWater(d, calls, n)
  {
    hide Run, Flat, Suffix, HighWater;
    assert calls[..|calls|] == calls;
    HighWaterIs(d, calls, |calls|);
  }

  lemma HighWaterIs(d: State, calls: Calls, i: nat)
    requires 0 < i <= |calls|
    ensures var (before, now) := (HighWater(d, calls, i - 1), |Flat(Run(d, calls[..i]).ring)|);
            HighWater(d, calls, i) == if before < now then now else before
  {
    hide Run, Flat;
  }

  /** Every reply of a session that only writes, whatever locks are interrupted and blocks missing, up to a
      write that comes back short. */
  lemma {:induction false} WritesTranscript(s: Session, qs: seq<Request>)
    requires Opened(s) && Served(qs) && forall i :: 0 <= i < |qs| ==> qs[i].seek == None && qs[i].cut == None
    ensures Told(ServeAll(s, qs), s.dev, Writes(s, qs))
    decreases |qs|
  {
    hide Serve, Told, Writes;
    if qs == [] {
      NothingTold(s);
    } else {
      var n := |qs| - 1;
      var (most, q) := (qs[..n], qs[n]);
      assert qs == most + [q];
      WritesTranscript(s, most);
      WritesSnoc(s, most, q);
      ServeAllSnoc(s, most, q);
      if ServeAll(s, most).failed {
        FailedServes(ServeAll(s, most), q);
        assert Writes(s, most) + [] == Writes(s, most);
      } else {
        ToldMore(ServeAll(s, most), s.dev, Writes(s, most), q);
      }
    }
  }

  lemma NothingTold(s: Session)
    requires Opened(s)
    ensures Told(ServeAll(s, []), s.dev, Writes(s, []))
  {
    hide ActualPos, Flat, State.Sound, ReplyTo, Serve, AfterWrite;
    FromTheStart();
  }

  lemma FailedServes(s: Session, q: Request)
    requires s.failed && q.env.Covers(q.segment)
    ensures Serve(s, q) == s
  {
  }

  /** Every session that only writes, whatever the sessions before it did and met. */
  lemma EverySessionsReplies(batches: Batches, k: nat)
    requires k < |batches|
    requires forall i :: 0 <= i < |batches[k]| ==> batches[k][i].seek == None && batches[k][i].cut == None
    ensures var d := AfterVisits(ZEROED, batches[..k]);
            && d == Idle(Run(INIT, AllWrites(ZEROED, batches[..k])), 0)
            && Told(LastVisit(ZEROED, batches[..k + 1]), d.dev, Writes(Open(d), batches[k]))
  {
    hide ServeAll, Run, AllWrites, Writes, Told;
    StartsAfresh(batches[..k]);
    assert batches[..k + 1][..k] == batches[..k];
    WritesTranscript(Open(AfterVisits(ZEROED, batches[..k])), batches[k]);
  }

  /** A session in which only lines are sent, and none of them fails, is answered line by line with the
      echoes of their entries, whatever the sessions before it have left in the ring and on the stage. */
  lemma EverySessionsTranscript(batches: Batches, k: nat, lines: seq<seq<byte>>)
    requires k < |batches| && batches[k] == Data(lines)
    requires forall i :: 0 <= i < |lines| ==> IsLine(lines[i]) && |lines[i]| <= KMALLOC_MAX_SIZE
    requires lines != [] ==> Fits(AfterVisits(ZEROED, batches[..k]).dev, lines[0])
    ensures var d, t := Run(INIT, AllWrites(ZEROED, batches[..k])), LastVisit(ZEROED, batches[..k + 1]);
            && t.sent == Echoes(d.History(), Entries(d.staged, lines))
            && t.dev.History() == d.History() + Entries(d.staged, lines)
  {
    hide ServeAll, Run, AllWrites, Echoes, Entries, IsLine;
    StartsAfresh(batches[..k]);
    assert batches[..k + 1][..k] == batches[..k];
    Transcript(Open(AfterVisits(ZEROED, batches[..k])), lines);
  }
}
