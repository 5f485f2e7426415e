/** What the requests of a session are answered with, in terms of what the device holds, where the file stands
    and where the last seek led: for every request, seeks and writes in any order. */
module Answers {
  import opened Prelude
  import opened Rings
  import opened Lines
  import opened Stream
  import opened Content
  import opened Runs
  import opened Replies
  import opened Sessions
  import opened Visits

  // ---- One request ----

  /** Between s and t one reply has been sent: the content of ring from the sum of the file's position and the
      seek position on, all of it if no read was interrupted before the end; the file has moved by its length. */
  lemma ReplyIs(s: Session, cut: Option<nat>)
    ensures var (t, content, sum) := (Reply(s, cut), Flat(s.dev.ring), s.fPos + s.lseek);
            && t == s.(sent := t.sent, fPos := t.fPos)
            && |t.sent| == |s.sent| + 1 && t.sent[..|s.sent|] == s.sent
            && var echo := t.sent[|s.sent|];
            && t.fPos == ToLoff(s.fPos + |echo|)
            && echo <= ContentFrom(content, sum) && (cut == None ==> echo == ContentFrom(content, sum))
            && (echo == ContentFrom(content, sum) <==> Uncut(s.dev.ring, ActualPos(s.fPos, s.lseek), cut))
  {
    hide Flat, Suffix, ActualPos, ToLoff, ContentFrom, Received, Uncut;
    SuffixAt(Flat(s.dev.ring), s.fPos, s.lseek);
    UncutWhole(s.dev.ring, ActualPos(s.fPos, s.lseek), cut);
    if cut.Some? { InterruptedReply(s.dev.ring, ActualPos(s.fPos, s.lseek), cut.value); }
  }

  /** A seek, for a file at any position: accepted or not, it is answered once, with the content from the file's
      position plus the seek position that it has left. */
  lemma SeekAnswered(s: Session, q: Request, cmd: u32, off: u32)
    requires q.env.Covers(q.segment) && q.seek == Some((cmd, off)) && !s.failed && s.dev.Sound()
    ensures var (t, ring) := (Serve(s, q), s.dev.ring);
            var accepted := q.env.lock && cmd <= |ring|
              && off <= if cmd < |ring| then |ring[cmd]| else if |ring| == CAPACITY then |ring[0]| else 0;
            var base := if accepted then |Flat(ring[..cmd])| + off else s.lseek;
            && t.dev == s.dev && !t.failed && t.lseek == base
            && |t.sent| == |s.sent| + 1 && t.sent[..|s.sent|] == s.sent
            && var echo := t.sent[|s.sent|];
            && t.fPos == ToLoff(s.fPos + |echo|)
            && echo <= ContentFrom(Flat(ring), s.fPos + base)
            && (q.cut == None ==> echo == ContentFrom(Flat(ring), s.fPos + base))
  {
    hide Flat, Reply, SeekTarget, ToLoff, ContentFrom, State.Sound, Uncut, ActualPos;
    SoundRing(s.dev);
    SeekTargetIs(s.dev.ring, cmd, off);
    TargetSmall(s.dev, cmd, off);
    ReplyIs(Seek(s, cmd, off, q.env.lock), q.cut);
  }

  lemma TargetSmall(d: State, cmd: nat, off: nat)
    requires d.Sound()
    ensures var t := SeekTarget(d.ring, cmd, off); t.Some? ==> ToLoff(t.value) == t.value
  {
    SoundRing(d);
    if cmd <= |d.ring| { RingBounded(d.ring, cmd); }
  }

  /** A write, for a file at any position: taken whole it is answered once, with the content then in the ring
      from the same sum on; come back short it is not answered, and ends the session. */
  lemma WriteAnswered(s: Session, q: Request)
    requires q.env.Covers(q.segment) && q.seek == None && !s.failed
    ensures var (t, d) := (Serve(s, q), AfterWrite(s.dev, q.segment, q.env));
            && t.dev == d && t.lseek == s.lseek
            && (t.failed <==> WriteResult(s.dev, q.segment, q.env) != Ok(|q.segment|))
            && if t.failed then t.sent == s.sent && t.fPos == s.fPos
               else
                 && |t.sent| == |s.sent| + 1 && t.sent[..|s.sent|] == s.sent
                 && var echo := t.sent[|s.sent|];
                 && t.fPos == ToLoff(s.fPos + |echo|)
                 && echo <= ContentFrom(Flat(d.ring), s.fPos + s.lseek)
                 && (q.cut == None ==> echo == ContentFrom(Flat(d.ring), s.fPos + s.lseek))
  {
    hide Flat, Reply, ToLoff, ContentFrom, AfterWrite, WriteResult, Uncut, ActualPos;
    ReplyIs(s.(dev := AfterWrite(s.dev, q.segment, q.env)), q.cut);
  }

  /** The seek position is added to the file's own: after one line on the empty device, a seek back to its start
      is answered with nothing. */
  lemma SeekAfterReadExample(line: seq<byte>, env: Env)
    requires IsLine(line) && |line| <= KMALLOC_MAX_SIZE && env.Covers([]) && env.lock
    ensures var s := ServeAll(Open(ZEROED), [Line(line), Request([], Some((0, 0)), env, None)]);
            s.sent == [line, []]
  {
    hide Serve, AfterWrite, WriteResult, ToLoff, ActualPos, ContentFrom, State.Sound, Flat;
    var s := Open(ZEROED);
    var t := Serve(s, Line(line));
    var q := Request([], Some((0, 0)), env, None);
    InitSound();
    FirstLine(s, line);
    LineAlone(t, line);
    WriteAnswered(s, Line(line));
    SeekAnswered(t, q, 0, 0);
    LineBack(t, line);
    TwoServed(s, Line(line), q);
  }

  lemma InitSound()
    ensures INIT.Sound()
  {
  }

  lemma TwoServed(s: Session, a: Request, b: Request)
    requires a.env.Covers(a.segment) && b.env.Covers(b.segment)
    ensures ServeAll(s, [a, b]) == Serve(Serve(s, a), b)
  {
    hide Serve;
    assert [a, b][1..] == [b] && [b][1..] == [];
    assert ServeAll(Serve(s, a), [b]) == Serve(Serve(s, a), b);
  }

  lemma LineAlone(t: Session, line: seq<byte>)
    requires t.dev.Sound() && t.dev.History() == INIT.History() + [INIT.staged + line]
    ensures INIT.History() == [] && INIT.staged + line == line
    ensures t.dev.ring == Window([] + [line]) == [line] && Flat([line]) == line
  {
    assert INIT.staged + line == line && INIT.History() + [line] == [line];
    FlatFirst([line]);
    FlatFirst<byte>([]);
    assert [line][1..] == [] && line + [] == line;
  }

  lemma LineBack(t: Session, line: seq<byte>)
    requires t.dev.ring == [line] && Flat([line]) == line && t.fPos == ToLoff(|line|) && |line| <= KMALLOC_MAX_SIZE
    ensures ContentFrom(Flat(t.dev.ring), t.fPos + |Flat(t.dev.ring[..0])|) == []
  {
    assert t.dev.ring[..0] == [];
    FlatFirst<byte>([]);
    assert line[|line|..] == [];
  }

  // ---- A session of any requests ----

  /** The device after the first i requests. */
  function DeviceAt(d: State, qs: seq<Request>, i: nat): State
    requires Served(qs) && i <= |qs|
  {
    if i == 0 then d
    else
      var (e, q) := (DeviceAt(d, qs, i - 1), qs[i - 1]);
      if q.seek == None then AfterWrite(e, q.segment, q.env) else e
  }

  /** Where the last of the first i requests that was an accepted seek led, or 0. */
  function SeekAt(d: State, qs: seq<Request>, i: nat): int
    requires Served(qs) && i <= |qs|
  {
    if i == 0 then 0
    else
      var (ring, q) := (DeviceAt(d, qs, i - 1).ring, qs[i - 1]);
      match q.seek
      case None => SeekAt(d, qs, i - 1)
      case Some((cmd, off)) =>
        if q.env.lock && cmd <= |ring|
           && off <= (if cmd < |ring| then |ring[cmd]| else if |ring| == CAPACITY then |ring[0]| else 0)
        then |Flat(ring[..cmd])| + off else SeekAt(d, qs, i - 1)
  }

  /** What request i is answered with, if no read is interrupted, to a client that has received so many bytes
      in this session. */
  function AnswerTo(d: State, qs: seq<Request>, i: nat, received: nat): seq<byte>
    requires Served(qs) && i < |qs|
  {
    ContentFrom(Flat(DeviceAt(d, qs, i + 1).ring), ToLoff(received) + SeekAt(d, qs, i + 1))
  }

  /** Request n is a write that comes back short. */
  predicate Short(d: State, qs: seq<Request>, n: nat)
    requires Served(qs) && n < |qs|
  {
    qs[n].seek == None && WriteResult(DeviceAt(d, qs, n), qs[n].segment, qs[n].env) != Ok(|qs[n].segment|)
  }

  /** Every request up to a write that comes back short has been answered, once and in order: with the content
      then in the ring, from as many bytes on as the client has received in this session, plus the position
      that the last accepted seek led to. */
  ghost predicate Conversation(t: Session, d: State, qs: seq<Request>)
    requires Served(qs)
  {
    var n := |t.sent|;
    && n <= |qs| && (if t.failed then n < |qs| && Short(d, qs, n) else n == |qs|)
    && (forall i :: 0 <= i < n ==> EchoesSo(t.sent, d, qs, i))
    && (!t.failed ==>
          && t.dev == DeviceAt(d, qs, n) && t.dev.Sound() && t.lseek == SeekAt(d, qs, n)
          && t.fPos == ToLoff(|Flat(t.sent)|))
  }

  ghost predicate EchoesSo(sent: seq<seq<byte>>, d: State, qs: seq<Request>, i: nat)
    requires Served(qs) && i < |sent| && i < |qs|
  {
    var answer := AnswerTo(d, qs, i, |Flat(sent[..i])|);
    sent[i] <= answer && (qs[i].cut == None ==> sent[i] == answer)
  }

  lemma {:induction false} EarlierAnswers(d: State, most: seq<Request>, q: Request, i: nat)
    requires Served(most) && q.env.Covers(q.segment) && i <= |most|
    ensures Served(most + [q])
    ensures DeviceAt(d, most + [q], i) == DeviceAt(d, most, i) && SeekAt(d, most + [q], i) == SeekAt(d, most, i)
    decreases i
  {
    hide AfterWrite, Flat;
    if i > 0 {
      EarlierAnswers(d, most, q, i - 1);
      assert (most + [q])[i - 1] == most[i - 1];
    }
  }

  lemma EarlierEchoes(sent: seq<seq<byte>>, echo: seq<byte>, d: State, most: seq<Request>, q: Request, i: nat)
    requires Served(most) && q.env.Covers(q.segment) && i < |sent| && i < |most|
    ensures Served(most + [q])
    ensures EchoesSo(sent + [echo], d, most + [q], i) <==> EchoesSo(sent, d, most, i)
    ensures EchoesSo(sent, d, most + [q], i) <==> EchoesSo(sent, d, most, i)
  {
    hide Flat, ContentFrom, ToLoff, DeviceAt, SeekAt;
    EarlierAnswers(d, most, q, i + 1);
    assert (sent + [echo])[..i] == sent[..i] && (most + [q])[i] == most[i];
  }

  lemma EarlierShort(d: State, most: seq<Request>, q: Request, n: nat)
    requires Served(most) && q.env.Covers(q.segment) && n < |most|
    ensures Served(most + [q]) && (Short(d, most + [q], n) <==> Short(d, most, n))
  {
    hide WriteResult, DeviceAt;
    EarlierAnswers(d, most, q, n);
    assert (most + [q])[n] == most[n];
  }

  /** After a failure nothing more is said. */
  lemma ConversationOver(t: Session, d: State, most: seq<Request>, q: Request)
    requires Served(most) && q.env.Covers(q.segment) && Conversation(t, d, most) && t.failed
    ensures Served(most + [q]) && Conversation(t, d, most + [q])
  {
    hide Short, EchoesSo, Flat, ToLoff, DeviceAt, SeekAt, State.Sound;
    EarlierShort(d, most, q, |t.sent|);
    forall i | 0 <= i < |t.sent|
      ensures EchoesSo(t.sent, d, most + [q], i)
    {
      EarlierEchoes(t.sent, [], d, most, q, i);
    }
  }

  /** One more request. */
  lemma ConversationMore(t: Session, d: State, most: seq<Request>, q: Request)
    requires Served(most) && q.env.Covers(q.segment) && Conversation(t, d, most) && !t.failed
    ensures Served(most + [q]) && Conversation(Serve(t, q), d, most + [q])
  {
    hide EchoesSo, Flat, ToLoff, DeviceAt, SeekAt, State.Sound, Serve, ContentFrom, AfterWrite, WriteResult, ActualPos;
    var (n, qs, u) := (|most|, most + [q], Serve(t, q));
    EarlierAnswers(d, most, q, n);
    LastAnswer(d, most, q);
    OneRequest(t, q);
    if u.failed {
      forall i | 0 <= i < n
        ensures EchoesSo(u.sent, d, qs, i)
      {
        EarlierEchoes(t.sent, [], d, most, q, i);
      }
    } else {
      var echo := u.sent[n];
      assert u.sent == t.sent + [echo];
      FlatSnoc(t.sent, echo);
      FileMoves(|Flat(t.sent)|, |echo|);
      LastEcho(t.sent, echo, d, qs);
      forall i | 0 <= i < n
        ensures EchoesSo(u.sent, d, qs, i)
      {
        EarlierEchoes(t.sent, echo, d, most, q, i);
      }
    }
  }

  lemma FileMoves(received: nat, more: nat)
    ensures ToLoff(ToLoff(received) + more) == ToLoff(received + more)
  {
    ToLoffAdds(received, more);
  }

  lemma LastEcho(sent: seq<seq<byte>>, echo: seq<byte>, d: State, qs: seq<Request>)
    requires Served(qs) && |qs| == |sent| + 1
    requires var answer := AnswerTo(d, qs, |sent|, |Flat(sent)|);
             echo <= answer && (qs[|sent|].cut == None ==> echo == answer)
    ensures EchoesSo(sent + [echo], d, qs, |sent|)
  {
    hide AnswerTo, Flat;
    assert (sent + [echo])[..|sent|] == sent;
  }

  /** Device and seek position after the last request, from those before it. */
  lemma LastAnswer(d: State, most: seq<Request>, q: Request)
    requires Served(most) && q.env.Covers(q.segment)
    ensures var (n, qs) := (|most|, most + [q]);
            && Served(qs)
            && var (e, ring) := (DeviceAt(d, most, n), DeviceAt(d, most, n).ring);
            && DeviceAt(d, qs, n + 1) == (if q.seek == None then AfterWrite(e, q.segment, q.env) else e)
            && SeekAt(d, qs, n + 1) == match q.seek
               case None => SeekAt(d, most, n)
               case Some((cmd, off)) =>
                 if q.env.lock && cmd <= |ring|
                    && off <= (if cmd < |ring| then |ring[cmd]| else if |ring| == CAPACITY then |ring[0]| else 0)
                 then |Flat(ring[..cmd])| + off else SeekAt(d, most, n)
  {
    hide AfterWrite, Flat;
    EarlierAnswers(d, most, q, |most|);
    assert (most + [q])[|most|] == q;
  }

  /** One request of either kind. */
  lemma OneRequest(s: Session, q: Request)
    requires q.env.Covers(q.segment) && !s.failed && s.dev.Sound()
    ensures var (t, ring) := (Serve(s, q), s.dev.ring);
            && t.dev == (if q.seek == None then AfterWrite(s.dev, q.segment, q.env) else s.dev) && t.dev.Sound()
            && t.lseek == (match q.seek
                 case None => s.lseek
                 case Some((cmd, off)) =>
                   if q.env.lock && cmd <= |ring|
                      && off <= (if cmd < |ring| then |ring[cmd]| else if |ring| == CAPACITY then |ring[0]| else 0)
                   then |Flat(ring[..cmd])| + off else s.lseek)
            && (t.failed <==> q.seek == None && WriteResult(s.dev, q.segment, q.env) != Ok(|q.segment|))
            && if t.failed then t.sent == s.sent
               else
                 && |t.sent| == |s.sent| + 1 && t.sent[..|s.sent|] == s.sent
                 && var (echo, answer) := (t.sent[|s.sent|], ContentFrom(Flat(t.dev.ring), s.fPos + t.lseek));
                 && t.fPos == ToLoff(s.fPos + |echo|) && echo <= answer && (q.cut == None ==> echo == answer)
  {
    hide Flat, ToLoff, State.Sound, Serve, ContentFrom, AfterWrite, WriteResult, ActualPos;
    match q.seek {
      case None =>
        WriteAnswered(s, q);
        WriteSound(s.dev, q.segment, q.env);
      case Some((cmd, off)) =>
        SeekAnswered(s, q, cmd, off);
    }
  }

  /** The transcript of a session of any requests, lines and seeks mixed, whatever they meet. */
  lemma {:induction false} SessionTranscript(s: Session, qs: seq<Request>)
    requires Opened(s) && Served(qs)
    ensures Conversation(ServeAll(s, qs), s.dev, qs)
    decreases |qs|
  {
    hide Serve, Conversation;
    if qs == [] {
      NothingSaid(s);
    } else {
      var n := |qs| - 1;
      var (most, q) := (qs[..n], qs[n]);
      assert qs == most + [q];
      SessionTranscript(s, most);
      ServeAllSnoc(s, most, q);
      if ServeAll(s, most).failed {
        FailedServes(ServeAll(s, most), q);
        ConversationOver(ServeAll(s, most), s.dev, most, q);
      } else {
        ConversationMore(ServeAll(s, most), s.dev, most, q);
      }
    }
  }

  lemma NothingSaid(s: Session)
    requires Opened(s)
    ensures Conversation(ServeAll(s, []), s.dev, [])
  {
    hide State.Sound;
    FlatFirst<byte>([]);
  }

  /** Every session of any sequence of sessions from the zeroed device is such a conversation, on the run of all
      writes made before it. */
  lemma EverySessionsConversation(batches: Batches, k: nat)
    requires k < |batches|
    ensures Conversation(LastVisit(ZEROED, batches[..k + 1]), Run(INIT, AllWrites(ZEROED, batches[..k])), batches[k])
  {
    hide ServeAll, Run, AllWrites, Conversation;
    StartsAfresh(batches[..k]);
    assert batches[..k + 1][..k] == batches[..k];
    SessionTranscript(Open(AfterVisits(ZEROED, batches[..k])), batches[k]);
  }
}
