/** What the server answers: requests are served one after another on one open file of the device. */
module Sessions {
  import opened Prelude
  import opened Rings
  import opened Lines
  import opened Stream
  import opened Content
  import opened Replies
  import opened Runs

  type u32 = x: nat | x < 0x1_0000_0000

  /** One segment: a seek command, or data to write, and what is met in serving it. A seek waits for
      buffMutex, and gets it if env.lock says so. cut: how many reads of the reply go through before one is
      interrupted, if one is. */
  datatype Request = Request(segment: seq<byte>, seek: Option<(u32, u32)>, env: Env, cut: Option<nat>)

  predicate Served(qs: seq<Request>) { forall i :: 0 <= i < |qs| ==> qs[i].env.Covers(qs[i].segment) }

  /** The device, the seek position all its files share, this file's position, and the replies so far.
      failed: the process has exited. */
  datatype Session = Session(dev: State, lseek: loff, fPos: loff, sent: seq<seq<byte>>, failed: bool)

  /** The device is read from where the file stands. */
  function Reply(s: Session, cut: Option<nat>): Session
  {
    var echo := Delivered(s.dev.ring, ActualPos(s.fPos, s.lseek), cut);
    s.(fPos := ToLoff(s.fPos + |echo|), sent := s.sent + [echo])
  }

  function Seek(s: Session, cmd: u32, off: u32, lock: bool): Session
  {
    var t := SeekTarget(s.dev.ring, cmd, off);
    if lock && t.Some? then s.(lseek := ToLoff(t.value)) else s
  }

  function Serve(s: Session, q: Request): Session
    requires q.env.Covers(q.segment)
  {
    if s.failed then s
    else match q.seek
      case Some((cmd, off)) => Reply(Seek(s, cmd, off, q.env.lock), q.cut)
      case None =>
        var t := s.(dev := AfterWrite(s.dev, q.segment, q.env));
        if WriteResult(s.dev, q.segment, q.env) == Ok(|q.segment|) then Reply(t, q.cut) else t.(failed := true)
  }

  function ServeAll(s: Session, qs: seq<Request>): Session
    requires Served(qs)
    decreases |qs|
  {
    if qs == [] then s else ServeAll(Serve(s, qs[0]), qs[1..])
  }

  /** A seek shifts the read position to its target exactly for a file still at position 0: the shared
      seek position is added to the file's own. */
  lemma SeekLandsIff(fPos: loff, target: nat)
    requires target < 0x8000_0000
    ensures ActualPos(fPos, target) == target <==> fPos == 0
  {
    ActualPosMeaning(fPos, target);
  }

  // ---- What single requests are answered with ----

  lemma SoundRing(d: State)
    requires d.Sound()
    ensures |d.ring| <= CAPACITY
    ensures forall i :: 0 <= i < |d.ring| ==> IsRecord(d.ring[i]) && |d.ring[i]| <= KMALLOC_MAX_SIZE
  {
    assert forall i :: 0 <= i < |d.ring| ==> d.ring[i] == d.History()[|d.History()| - |d.ring| + i];
  }

  /** After a reply the file is at the end of the content, or still as far past it as it was. */
  lemma ReplyMoves(s: Session)
    requires s.dev.Sound()
    ensures var pos, total := ActualPos(s.fPos, s.lseek), |Flat(s.dev.ring)|;
            ActualPos(Reply(s, None).fPos, s.lseek) == if pos <= total then total else pos
  {
    SoundRing(s.dev);
    RingBounded(s.dev.ring, 0);
    var pos, total := ActualPos(s.fPos, s.lseek), |Flat(s.dev.ring)|;
    ToLoffKeeps(s.fPos);
    if pos <= total { ActualPosAdvances(s.fPos, s.lseek, total - pos); }
  }

  /** The file stands past bytes past the end of the content. */
  ghost predicate StandsPast(s: Session, past: nat)
  {
    ActualPos(s.fPos, s.lseek) == |Flat(s.dev.ring)| + past
  }

  /** One complete line, with every lock and block granted, is committed with what was staged. */
  lemma WriteLine(d: State, line: seq<byte>)
    requires IsLine(line) && Fits(d, line)
    ensures AfterWrite(d, line, AllWell(line)) == Commit(d.(staged := d.staged + line))
    ensures WriteResult(d, line, AllWell(line)) == Ok(|line|)
  {
    AllWellAccepts(d, line);
    FedNone(d, line, AllWell(line));
    assert line[0..|line| - 1] == line[..|line| - 1] && line[0..|line|] == line;
    FedLine(d, line, AllWell(line), 0, |line|);
  }

  /** In a fresh session on a device whose seek position is 0, a written segment is answered from the
      start of the content after it. */
  lemma FirstWriteReply(s: Session, q: Request)
    requires q.env.Covers(q.segment) && q.seek == None && !s.failed && s.fPos == 0 && s.lseek == 0
    ensures WriteResult(s.dev, q.segment, q.env) == Ok(|q.segment|) ==>
              Serve(s, q).sent == s.sent + [Delivered(AfterWrite(s.dev, q.segment, q.env).ring, 0, q.cut)]
  {
    hide AfterWrite, WriteResult, Delivered, ToLoff, ActualPos;
    FromTheStart();
  }

  /** In such a session a seek to a byte of a live command is answered from that byte on: what follows
      it is the rest of that command and all later ones. */
  lemma FirstSeekReply(s: Session, q: Request, cmd: u32, off: u32)
    requires q.env.Covers(q.segment) && q.seek == Some((cmd, off)) && q.env.lock
    requires !s.failed && s.fPos == 0 && s.dev.Sound() && cmd < |s.dev.ring| && off < |s.dev.ring[cmd]|
    ensures var (ring, t) := (s.dev.ring, SeekTarget(s.dev.ring, cmd, off));
            && t.Some? && Serve(s, q).sent == s.sent + [Delivered(ring, t.value, q.cut)]
            && Suffix(Flat(ring), t.value) == ring[cmd][off..] + Flat(ring[cmd + 1..])
  {
    var ring := s.dev.ring;
    SoundRing(s.dev);
    RingBounded(ring, cmd);
    SeekSelectsByte(ring, cmd, off);
    hide Delivered, Flat;
    var t := SeekTarget(ring, cmd, off).value;
    assert ActualPos(0, ToLoff(t)) == t;
  }

  /** The request of a client that sends a line and meets no failure. */
  function Line(line: seq<byte>): (q: Request)
    ensures q.env.Covers(q.segment)
  {
    Request(line, None, AllWell(line), None)
  }

  /** Once everything has been read, a written line is answered with that line less its first bytes: as
      many as the entry it pushes out had, and as many as the file stood past the end already. So the
      client gets the whole line exactly when nothing is pushed out and nothing was owed; and what a
      short line could not make up for is owed by the next. */
  lemma LaterWritesEchoTheLine(s: Session, line: seq<byte>, past: nat)
    requires !s.failed && StandsPast(s, past) && s.dev.Sound() && IsLine(line) && Fits(s.dev, line)
    ensures var entry := s.dev.staged + line;
            var skip := past + |Flat(Dropped(s.dev.ring))|;
            var t := Serve(s, Line(line));
            && t.sent == s.sent + [Suffix(entry, skip)]
            && (Suffix(entry, skip) == entry <==> past == 0 && |s.dev.ring| < CAPACITY)
            && StandsPast(t, if skip <= |entry| then 0 else skip - |entry|)
  {
    var d, entry := s.dev, s.dev.staged + line;
    hide Flat, Dropped, AfterWrite, ActualPos, Push, Suffix, IsLine, WriteResult, State.Sound;
    LineCommitted(d, line);
    DroppedSize(d);
    var t := s.(dev := AfterWrite(d, line, AllWell(line)));
    ReplyMoves(t);
    SlidByOne(d.ring, entry, past);
    SuffixWhole(entry, past + |Flat(Dropped(d.ring))|);
  }

  lemma SuffixWhole(entry: seq<byte>, skip: nat)
    requires entry != []
    ensures Suffix(entry, skip) == entry <==> skip == 0
  {
  }

  /** What is left, after a commit, of a content that had been read to past bytes beyond its end. */
  lemma SlidByOne(ring: seq<seq<byte>>, entry: seq<byte>, past: nat)
    requires |ring| <= CAPACITY
    ensures var gone := |Flat(Dropped(ring))|;
            && gone <= |Flat(ring)| && |Flat(Push(ring, entry))| == |Flat(ring)| - gone + |entry|
            && Suffix(Flat(Push(ring, entry)), |Flat(ring)| + past) == Suffix(entry, past + gone)
  {
    SlidingWindow(ring, entry);
  }

  lemma DroppedSize(d: State)
    requires d.Sound()
    ensures |d.ring| <= CAPACITY && (Flat(Dropped(d.ring)) == [] <==> |d.ring| < CAPACITY)
  {
    SoundRing(d);
    if |d.ring| == CAPACITY { assert Dropped(d.ring)[1..] == []; }
  }

  /** A complete line becomes an entry, together with what was staged. */
  lemma LineCommitted(d: State, line: seq<byte>)
    requires d.Sound() && IsLine(line) && Fits(d, line)
    ensures var e, entry := AfterWrite(d, line, AllWell(line)), d.staged + line;
            && WriteResult(d, line, AllWell(line)) == Ok(|line|)
            && e.Sound() && e.staged == [] && e.History() == d.History() + [entry]
            && e.ring == Push(d.ring, entry) && entry != []
  {
    WriteLine(d, line);
    WriteSound(d, line, AllWell(line));
    CommitHistory(d.(staged := d.staged + line));
    assert d.(staged := d.staged + line).History() == d.History();
  }

  // ---- Sessions of lines ----

  /** The requests of a client that only sends lines, with every lock and block granted. */
  function Data(lines: seq<seq<byte>>): (qs: seq<Request>)
    ensures |qs| == |lines| && Served(qs)
  {
    seq(|lines|, i requires 0 <= i < |lines| => Line(lines[i]))
  }

  lemma DataSnoc(most: seq<seq<byte>>, line: seq<byte>)
    ensures Data(most + [line]) == Data(most) + [Line(line)]
  {
  }

  lemma {:induction false} ServeAllSnoc(s: Session, most: seq<Request>, q: Request)
    requires Served(most) && q.env.Covers(q.segment)
    ensures Served(most + [q]) && ServeAll(s, most + [q]) == Serve(ServeAll(s, most), q)
    decreases |most|
  {
    hide Serve;
    if most == [] {
      assert (most + [q])[1..] == [];
    } else {
      ServeAllSnoc(Serve(s, most[0]), most[1..], q);
      assert (most + [q])[1..] == most[1..] + [q];
    }
  }

  /** The entries that lines become when some bytes were staged before them. */
  function Entries(staged: seq<byte>, lines: seq<seq<byte>>): seq<seq<byte>>
  {
    if lines == [] then [] else [staged + lines[0]] + lines[1..]
  }

  lemma EntriesSnoc(staged: seq<byte>, most: seq<seq<byte>>, line: seq<byte>)
    ensures Entries(staged, most + [line]) == Entries(staged, most) + [if most == [] then staged + line else line]
  {
    if most != [] { assert (most + [line])[1..] == most[1..] + [line]; }
  }

  /** How many bytes each entry pushes out of the window, on a device that has committed h before. */
  function PushedOut(h: seq<seq<byte>>, entries: seq<seq<byte>>, i: nat): nat
    requires i < |entries|
  {
    |Flat(Dropped(Window(h + entries[..i])))|
  }

  /** How far past the end of the content the file stands once i lines have been answered. */
  function Owed(h: seq<seq<byte>>, entries: seq<seq<byte>>, i: nat): nat
    requires i <= |entries|
  {
    if i <= 1 then 0
    else
      var skip := Owed(h, entries, i - 1) + PushedOut(h, entries, i - 1);
      if skip <= |entries[i - 1]| then 0 else skip - |entries[i - 1]|
  }

  /** What the client of a session receives for line i: all that is in the window for the first, and for
      every later one its entry less what that pushes out and what is owed. */
  function Echo(h: seq<seq<byte>>, entries: seq<seq<byte>>, i: nat): seq<byte>
    requires i < |entries|
  {
    if i == 0 then Flat(Window(h + [entries[0]]))
    else Suffix(entries[i], Owed(h, entries, i) + PushedOut(h, entries, i))
  }

  function Echoes(h: seq<seq<byte>>, entries: seq<seq<byte>>): (e: seq<seq<byte>>)
    ensures |e| == |entries|
  {
    seq(|entries|, i requires 0 <= i < |entries| => Echo(h, entries, i))
  }

  lemma EchoesSnoc(h: seq<seq<byte>>, most: seq<seq<byte>>, entry: seq<byte>)
    ensures Echoes(h, most + [entry]) == Echoes(h, most) + [Echo(h, most + [entry], |most|)]
  {
    hide Echo;
    forall i | 0 <= i < |most|
      ensures Echo(h, most + [entry], i) == Echo(h, most, i)
    {
      PrefixEcho(h, most, entry, i);
    }
  }

  /** Echoes depend on earlier entries only. */
  lemma {:induction false} PrefixEcho(h: seq<seq<byte>>, most: seq<seq<byte>>, entry: seq<byte>, i: nat)
    requires i <= |most|
    ensures Owed(h, most + [entry], i) == Owed(h, most, i)
    ensures i < |most| ==> Echo(h, most + [entry], i) == Echo(h, most, i)
    decreases i
  {
    hide PushedOut, Flat, Suffix, Window;
    if i < |most| { PrefixPushedOut(h, most, entry, i); }
    if i > 1 {
      PrefixEcho(h, most, entry, i - 1);
      PrefixPushedOut(h, most, entry, i - 1);
    }
  }

  lemma PrefixPushedOut(h: seq<seq<byte>>, most: seq<seq<byte>>, entry: seq<byte>, i: nat)
    requires i < |most|
    ensures PushedOut(h, most + [entry], i) == PushedOut(h, most, i)
  {
    assert (most + [entry])[..i] == most[..i];
  }

  /** A session has just begun, on whatever device its file was opened on. */
  ghost predicate Opened(s: Session)
  {
    !s.failed && s.fPos == 0 && s.lseek == 0 && s.sent == [] && s.dev.Sound()
  }

  /** Every line has been committed, and the replies are exactly the echoes, one a line, in order. */
  ghost predicate Answered(t: Session, s: Session, lines: seq<seq<byte>>)
  {
    var h, entries := s.dev.History(), Entries(s.dev.staged, lines);
    && !t.failed && t.dev.Sound() && t.dev.History() == h + entries
    && t.dev.staged == (if lines == [] then s.dev.staged else [])
    && t.sent == Echoes(h, entries) && t.lseek == 0
    && (if lines == [] then t.fPos == 0 else StandsPast(t, Owed(h, entries, |entries|)))
  }

  /** The whole transcript of a session of lines, of any length, whatever was staged before it. */
  lemma {:induction false} Transcript(s: Session, lines: seq<seq<byte>>)
    requires Opened(s)
    requires forall i :: 0 <= i < |lines| ==> IsLine(lines[i]) && |lines[i]| <= KMALLOC_MAX_SIZE
    requires lines != [] ==> Fits(s.dev, lines[0])
    ensures Answered(ServeAll(s, Data(lines)), s, lines)
    decreases |lines|
  {
    hide Serve, IsLine, Data;
    if lines == [] {
      NothingAnswered(s);
    } else {
      hide Answered, State.Sound;
      var n := |lines| - 1;
      var most, line := lines[..n], lines[n];
      assert lines == most + [line] && (most != [] ==> most[0] == lines[0]);
      Transcript(s, most);
      DataSnoc(most, line);
      ServeAllSnoc(s, Data(most), Line(line));
      AnsweredStep(s, ServeAll(s, Data(most)), most, line);
    }
  }

  lemma NothingAnswered(s: Session)
    requires Opened(s)
    ensures Answered(ServeAll(s, Data([])), s, [])
  {
    assert s.dev.History() + [] == s.dev.History() && Data([]) == [];
    assert Echoes(s.dev.History(), Entries(s.dev.staged, [])) == [];
  }

  lemma AnsweredStep(s: Session, t: Session, most: seq<seq<byte>>, line: seq<byte>)
    requires Opened(s) && Answered(t, s, most) && IsLine(line)
    requires if most == [] then Fits(s.dev, line) else |line| <= KMALLOC_MAX_SIZE
    ensures Answered(Serve(t, Line(line)), s, most + [line])
  {
    hide Flat, Suffix, Serve, Owed, PushedOut, Echo, Echoes, Dropped, State.Sound, IsLine;
    var h, before := s.dev.History(), Entries(s.dev.staged, most);
    var entry := if most == [] then s.dev.staged + line else line;
    EntriesSnoc(s.dev.staged, most, line);
    EchoesSnoc(h, before, entry);
    assert h + (before + [entry]) == h + before + [entry];
    if most == [] {
      assert h + before == h && Echoes(h, before) == [];
      FirstLine(t, line);
      EchoOfFirst(h, entry);
    } else {
      assert t.dev.staged + line == line;
      OneMoreLine(t, line, Owed(h, before, |before|));
      EchoOfNext(h, before, line);
    }
  }

  lemma EchoOfFirst(h: seq<seq<byte>>, entry: seq<byte>)
    ensures Echo(h, [] + [entry], 0) == Flat(Window(h + [entry])) && Owed(h, [] + [entry], 1) == 0
  {
  }

  lemma EchoOfNext(h: seq<seq<byte>>, before: seq<seq<byte>>, entry: seq<byte>)
    requires before != []
    ensures var skip := Owed(h, before, |before|) + |Flat(Dropped(Window(h + before)))|;
            && Echo(h, before + [entry], |before|) == Suffix(entry, skip)
            && Owed(h, before + [entry], |before| + 1) == if skip <= |entry| then 0 else skip - |entry|
  {
    hide Flat, Suffix, Window, Dropped, PushedOut;
    PrefixEcho(h, before, entry, |before|);
    PushedOutBy(h, before, entry);
  }

  lemma PushedOutBy(h: seq<seq<byte>>, before: seq<seq<byte>>, entry: seq<byte>)
    ensures PushedOut(h, before + [entry], |before|) == |Flat(Dropped(Window(h + before)))|
  {
    assert (before + [entry])[..|before|] == before;
  }

  /** The first line of a session. */
  lemma FirstLine(t: Session, line: seq<byte>)
    requires !t.failed && t.dev.Sound() && t.lseek == 0 && t.fPos == 0 && IsLine(line) && Fits(t.dev, line)
    ensures var u, h := Serve(t, Line(line)), t.dev.History();
            var entry := t.dev.staged + line;
            && !u.failed && u.dev.Sound() && u.dev.staged == [] && u.dev.History() == h + [entry]
            && u.lseek == 0 && StandsPast(u, 0) && u.sent == t.sent + [Flat(Window(h + [entry]))]
  {
    hide AfterWrite, WriteResult, Flat, Push, IsLine, Last, Suffix;
    LineCommitted(t.dev, line);
    var u := t.(dev := AfterWrite(t.dev, line, AllWell(line)));
    FreshReply(u);
    hide ActualPos, State.Sound, ToLoff;
    assert Serve(t, Line(line)) == Reply(u, None);
  }

  /** A file that stands at the start of the content is answered with all of it. */
  lemma FreshReply(u: Session)
    requires u.dev.Sound() && u.fPos == 0 && u.lseek == 0
    ensures Reply(u, None).sent == u.sent + [Flat(u.dev.ring)] && StandsPast(Reply(u, None), 0)
  {
    FromTheStart();
    hide Flat, State.Sound, ToLoff, ActualPos, Suffix, Reads;
    ReplyMoves(u);
    SuffixAll(Flat(u.dev.ring));
  }

  lemma FromTheStart()
    ensures ActualPos(0, 0) == 0
  {
  }

  lemma SuffixAll(content: seq<byte>)
    ensures Suffix(content, 0) == content
  {
  }

  /** A further line of a session. */
  lemma OneMoreLine(t: Session, line: seq<byte>, past: nat)
    requires !t.failed && t.dev.Sound() && t.dev.staged == [] && t.lseek == 0 && StandsPast(t, past)
    requires IsLine(line) && |line| <= KMALLOC_MAX_SIZE
    ensures var u, h := Serve(t, Line(line)), t.dev.History();
            var skip := past + |Flat(Dropped(Window(h)))|;
            && !u.failed && u.dev.Sound() && u.dev.staged == [] && u.dev.History() == h + [line]
            && u.lseek == 0 && u.sent == t.sent + [Suffix(line, skip)]
            && StandsPast(u, if skip <= |line| then 0 else skip - |line|)
  {
    hide AfterWrite, WriteResult, Flat, Push, IsLine, Dropped, Suffix, ActualPos;
    assert t.dev.staged + line == line;
    LineCommitted(t.dev, line);
    LaterWritesEchoTheLine(t, line, past);
  }
}
