/** connectionHandlerThread.c: cutting what a client sent into segments and answering each of them. */
module Servers {
  import opened Prelude
  import opened Lines
  import opened Stream
  import opened Content
  import opened Replies
  import opened Sessions
  import opened Devices

  /** What the driver calls made for a buffer meet, by position in the buffer: entryMutex for the segment
      starting there (buffMutex if it is a seek), buffMutex at a newline, a block for a segment starting there,
      and which read of its reply is interrupted. */
  datatype World = World(lock: seq<bool>, flush: seq<bool>, alloc: seq<bool>, cut: seq<Option<nat>>) {
    predicate Covers(n: nat) { n <= |lock| && n <= |flush| && n <= |alloc| && n <= |cut| }

    function At(from: nat, to: nat): Env
      requires from < to && Covers(to)
    {
      Env(lock[from], flush[from..to], alloc[from..to])
    }
  }

  /** FindSeek scans from the start of a segment, with nothing to stop it at the segment's end. */
  type Scanner = seq<byte> -> Option<(u32, u32)>

  /** The request in buffer[from..next], the first of those in buffer[from..n]. */
  function RequestAt(buffer: seq<byte>, n: nat, from: nat, next: nat, find: Scanner, world: World): (q: Request)
    requires from < next <= n <= |buffer| && world.Covers(n)
    ensures q.env.Covers(q.segment)
  {
    Request(buffer[from..next], find(buffer[from..]), world.At(from, next), world.cut[from])
  }

  /** The requests in buffer[from..n]. */
  function Requests(buffer: seq<byte>, n: nat, from: nat, find: Scanner, world: World): (qs: seq<Request>)
    requires from <= n <= |buffer| && world.Covers(n)
    ensures Served(qs)
    decreases n - from
  {
    if NEWLINE in buffer[from..n] then
      var next := from + LineEnd(buffer[from..n]);
      [RequestAt(buffer, n, from, next, find, world)] + Requests(buffer, n, next, find, world)
    else []
  }

  function Segments(qs: seq<Request>): seq<seq<byte>>
  {
    if qs == [] then [] else [qs[0].segment] + Segments(qs[1..])
  }

  lemma SegmentsCons(q: Request, qs: seq<Request>)
    ensures Segments([q] + qs) == [q.segment] + Segments(qs)
  {
    assert ([q] + qs)[1..] == qs;
  }

  lemma NoSegments()
    ensures Segments([]) == []
  {
  }

  lemma RequestSegment(buffer: seq<byte>, n: nat, from: nat, next: nat, find: Scanner, world: World)
    requires from < next <= n <= |buffer| && world.Covers(n)
    ensures RequestAt(buffer, n, from, next, find, world).segment == buffer[from..next]
  {
  }

  lemma RequestsStep(buffer: seq<byte>, n: nat, from: nat, find: Scanner, world: World)
    requires from <= n <= |buffer| && world.Covers(n)
    ensures var qs := Requests(buffer, n, from, find, world);
            if NEWLINE in buffer[from..n] then
              var next := from + LineEnd(buffer[from..n]);
              qs == [RequestAt(buffer, n, from, next, find, world)] + Requests(buffer, n, next, find, world)
            else qs == []
  {
    hide LineEnd, RequestAt;
  }

  /** The segments are the lines of the input, in order and each exactly once. */
  lemma {:induction false} SegmentsAreLines(buffer: seq<byte>, n: nat, from: nat, find: Scanner, world: World)
    requires from <= n <= |buffer| && world.Covers(n)
    ensures Segments(Requests(buffer, n, from, find, world)) == LinesOf(buffer[from..n])
    decreases n - from
  {
    hide LineEnd, LinesOf, Requests, RequestAt, Segments;
    var b := buffer[from..n];
    RequestsStep(buffer, n, from, find, world);
    if NEWLINE !in b {
      LinesOfNone(b);
      NoSegments();
    } else {
      var next := from + LineEnd(b);
      var rest := Requests(buffer, n, next, find, world);
      SegmentsAreLines(buffer, n, next, find, world);
      LinesOfCons(b);
      SliceOfSlice(buffer, from, next, n);
      RequestSegment(buffer, n, from, next, find, world);
      SegmentsCons(RequestAt(buffer, n, from, next, find, world), rest);
    }
  }

  lemma SliceOfSlice<T>(s: seq<T>, from: nat, next: nat, n: nat)
    requires from <= next <= n <= |s|
    ensures s[from..n][next - from..] == s[next..n] && s[from..n][..next - from] == s[from..next]
  {
  }

  /** The first newline from a segment's start on makes the next request. */
  lemma NextRequest(buffer: seq<byte>, n: nat, from: nat, next: nat, find: Scanner, world: World)
    requires from < next <= n <= |buffer| && world.Covers(n)
    requires NEWLINE !in buffer[from..next - 1] && buffer[next - 1] == NEWLINE
    ensures Requests(buffer, n, from, find, world)
            == [RequestAt(buffer, n, from, next, find, world)] + Requests(buffer, n, next, find, world)
    ensures IsLine(buffer[from..next]) && RestOf(buffer[from..n]) == RestOf(buffer[next..n])
  {
    var b := buffer[from..n];
    assert b[..next - from] == buffer[from..next];
    assert buffer[from..next][..next - from - 1] == buffer[from..next - 1];
    LineEndIs(b, next - from);
    assert b[next - from..] == buffer[next..n];
  }

  /** Where segment i of buffer[from..n] starts. */
  function SegmentStart(buffer: seq<byte>, n: nat, from: nat, i: nat): nat
    requires from <= n <= |buffer| && i <= |LinesOf(buffer[from..n])|
  {
    from + |Flat(LinesOf(buffer[from..n])[..i])|
  }

  /** q is what is asked for by the segment that starts at p: a seek exactly if the scan from there on finds
      one, data otherwise; and it meets what the world holds for the places of that segment. */
  ghost predicate AskedAt(q: Request, line: seq<byte>, buffer: seq<byte>, p: nat, find: Scanner, world: World)
  {
    var e := p + |line|;
    && p <= e <= |buffer| && world.Covers(e) && line != []
    && q.segment == line == buffer[p..e] && q.seek == find(buffer[p..])
    && q.env.lock == world.lock[p] && q.env.flush == world.flush[p..e] && q.env.alloc == world.alloc[p..e]
    && q.cut == world.cut[p]
  }

  /** The requests that a buffer makes, said of its lines: one a line, in order. */
  ghost predicate AskedBy(qs: seq<Request>, buffer: seq<byte>, n: nat, from: nat, find: Scanner, world: World)
    requires from <= n <= |buffer|
  {
    var lines := LinesOf(buffer[from..n]);
    && |qs| == |lines|
    && forall i :: 0 <= i < |qs| ==>
         AskedAt(qs[i], lines[i], buffer, SegmentStart(buffer, n, from, i), find, world)
  }

  lemma AskedOnce(q: Request, q': Request, line: seq<byte>, buffer: seq<byte>, p: nat, find: Scanner, world: World)
    requires AskedAt(q, line, buffer, p, find, world) && AskedAt(q', line, buffer, p, find, world)
    ensures q == q'
  {
  }

  lemma RequestAsked(buffer: seq<byte>, n: nat, from: nat, next: nat, find: Scanner, world: World)
    requires from < next <= n <= |buffer| && world.Covers(n)
    ensures AskedAt(RequestAt(buffer, n, from, next, find, world), buffer[from..next], buffer, from, find, world)
  {
  }

  lemma FirstSegment(buffer: seq<byte>, n: nat, from: nat)
    requires from <= n <= |buffer| && NEWLINE in buffer[from..n]
    ensures var next := from + LineEnd(buffer[from..n]);
            LinesOf(buffer[from..n]) == [buffer[from..next]] + LinesOf(buffer[next..n])
  {
    hide LinesOf, LineEnd;
    var next := from + LineEnd(buffer[from..n]);
    SliceOfSlice(buffer, from, next, n);
    FirstAndRest(buffer[from..n], buffer[from..next], buffer[next..n]);
  }

  lemma FirstAndRest(b: seq<byte>, line: seq<byte>, rest: seq<byte>)
    requires NEWLINE in b && b[..LineEnd(b)] == line && b[LineEnd(b)..] == rest
    ensures LinesOf(b) == [line] + LinesOf(rest)
  {
    hide LinesOf, LineEnd;
    LinesOfCons(b);
  }

  lemma StartsFrom(buffer: seq<byte>, n: nat, from: nat, i: nat)
    requires from <= n <= |buffer| && NEWLINE in buffer[from..n] && i <= |LinesOf(buffer[from..n])|
    ensures var (b, next) := (buffer[from..n], from + LineEnd(buffer[from..n]));
            && LinesOf(b) == [buffer[from..next]] + LinesOf(buffer[next..n])
            && SegmentStart(buffer, n, from, 0) == from
            && (i > 0 ==> SegmentStart(buffer, n, from, i) == SegmentStart(buffer, n, next, i - 1))
  {
    hide LinesOf, LineEnd, Flat;
    var next := from + LineEnd(buffer[from..n]);
    FirstSegment(buffer, n, from);
    FlatUpTo(buffer[from..next], LinesOf(buffer[next..n]), i);
    FlatUpTo(buffer[from..next], LinesOf(buffer[next..n]), 0);
  }

  lemma FlatUpTo(line: seq<byte>, lines: seq<seq<byte>>, i: nat)
    requires i <= |lines| + 1
    ensures |Flat(([line] + lines)[..i])| == if i == 0 then 0 else |line| + |Flat(lines[..i - 1])|
  {
    hide Flat;
    var firsts := ([line] + lines)[..i];
    FlatFirst(firsts);
    if i > 0 { assert firsts[1..] == lines[..i - 1]; }
  }

  /** Requests is the one list of requests that the lines of the buffer ask for. */
  lemma {:induction false} RequestsAsked(buffer: seq<byte>, n: nat, from: nat, find: Scanner, world: World)
    requires from <= n <= |buffer| && world.Covers(n)
    ensures AskedBy(Requests(buffer, n, from, find, world), buffer, n, from, find, world)
    decreases n - from
  {
    hide LinesOf, LineEnd, Requests, RequestAt, AskedAt, SegmentStart;
    var qs := Requests(buffer, n, from, find, world);
    RequestsStep(buffer, n, from, find, world);
    if NEWLINE !in buffer[from..n] {
      LinesOfNone(buffer[from..n]);
    } else {
      var next := from + LineEnd(buffer[from..n]);
      RequestsAsked(buffer, n, next, find, world);
      RequestAsked(buffer, n, from, next, find, world);
      StartsFrom(buffer, n, from, 0);
      var lines := LinesOf(buffer[from..n]);
      forall i | 0 <= i < |qs|
        ensures AskedAt(qs[i], lines[i], buffer, SegmentStart(buffer, n, from, i), find, world)
      {
        StartsFrom(buffer, n, from, i);
        if i > 0 { assert qs[i] == qs[1..][i - 1] && lines[i] == lines[1..][i - 1]; }
      }
    }
  }

  lemma AskedByOnce(qs: seq<Request>, qs': seq<Request>, buffer: seq<byte>, n: nat, from: nat, find: Scanner,
                    world: World)
    requires from <= n <= |buffer|
    requires AskedBy(qs, buffer, n, from, find, world) && AskedBy(qs', buffer, n, from, find, world)
    ensures qs == qs'
  {
    hide LinesOf, AskedAt, SegmentStart;
    forall i | 0 <= i < |qs|
      ensures qs[i] == qs'[i]
    {
      var line := LinesOf(buffer[from..n])[i];
      AskedOnce(qs[i], qs'[i], line, buffer, SegmentStart(buffer, n, from, i), find, world);
    }
  }

  class Server {
    const dev: Device
    // This open file's position, and what has been sent on the connection, one reply a segment.
    var fPos: loff
    var sent: seq<seq<byte>>

    constructor (dev: Device)
      ensures this.dev == dev && fPos == 0 && sent == []
    {
      this.dev := dev;
      fPos, sent := 0, [];
    }

    ghost function View(failed: bool): Session
      reads this, dev
    {
      Session(dev.view, dev.lseekPos, fPos, sent, failed)
    }

    ghost predicate Ready()
      reads this, dev, dev.buff, dev.buff.entry, dev.issued
    {
      dev.Ready()
    }

    /** Reads until a read returns nothing or is interrupted: the reply is the content from the file's
        effective position to its end, or what had come by then, and the position moves by as much. */
    method ReadToEnd(cut: Option<nat>) returns (reply: seq<byte>)
      requires Ready()
      modifies this`fPos, dev`buffMutex
      ensures Ready()
      ensures reply == Delivered(dev.view.ring, ActualPos(old(fPos), dev.lseekPos), cut)
      ensures fPos == ToLoff(old(fPos) + |reply|)
    {
      hide Flat, ReadData, Suffix, Device.Valid, ToLoff, ActualPos, Received, SoFar, Device.Settled;
      reply := [];
      ghost var ring, start := dev.view.ring, ActualPos(fPos, dev.lseekPos);
      dev.ContentBounded(0);
      NothingSoFar(ring, fPos, dev.lseekPos);
      var done := 0;
      while true
        invariant Ready() && (cut.Some? ==> done <= cut.value)
        invariant SoFar(ring, old(fPos), dev.lseekPos, fPos, reply, done)
        decreases |Suffix(Flat(ring), start + |reply|)|
      {
        WhereReadStands(ring, old(fPos), dev.lseekPos, fPos, reply, done);
        var r, data, newPos := dev.Read(READ_SIZE, fPos, cut != Some(done), 0);
        if r.Err? {
          break;
        }
        if r.n == 0 {
          AllSoFar(ring, old(fPos), dev.lseekPos, fPos, reply, done, cut);
          break;
        }
        MoreSoFar(ring, old(fPos), dev.lseekPos, fPos, reply, done, data);
        fPos := newPos;
        reply := reply + data;
        done := done + 1;
      }
    }

    /** The line of ProcessBuffer's loop that serves one segment. False where the process exits. */
    method ServeSegment(q: Request) returns (ok: bool)
      requires Ready() && q.env.Covers(q.segment)
      modifies this`fPos, this`sent, dev, dev.buff, dev.buff.entry
      modifies if dev.buffPtr == null then {} else {dev.buffPtr}
      ensures Ready()
      ensures View(!ok) == Serve(old(View(false)), q)
      ensures dev.buffPtr == null || dev.buffPtr == old(dev.buffPtr) || fresh(dev.buffPtr)
      ensures fresh(dev.issued - old(dev.issued))
    {
      hide Device.Valid, AfterWrite, WriteResult, SeekTarget, Delivered, ActualPos, ToLoff;
      if q.seek.Some? {
        var ignored := dev.Ioctl(true, true, q.env.lock, q.seek.value.0, q.seek.value.1);
        ToLoffKeeps(dev.lseekPos);
      } else {
        var written := dev.Write(q.segment, q.env);
        if written != Ok(|q.segment|) {
          return false;
        }
      }
      var reply := ReadToEnd(q.cut);
      sent := sent + [reply];
      ok := true;
    }

    /** The segments of bytes[..from] have been served, starting from session s. */
    ghost predicate Progress(bytes: seq<byte>, n: nat, from: nat, s: Session, find: Scanner, world: World)
      reads this, dev, dev.buff, dev.buff.entry, dev.issued
    {
      && Ready() && from <= n <= |bytes| && world.Covers(n)
      && ServeAll(s, Requests(bytes, n, 0, find, world)) == ServeRest(View(false), bytes, n, from, find, world)
      && RestOf(bytes[from..n]) == RestOf(bytes[..n])
    }

    /** The newline branch of ProcessBuffer's loop. */
    method ServeNext(buffer: array<byte>, n: nat, from: nat, next: nat, ghost s: Session, find: Scanner, world: World)
      returns (ok: bool)
      requires Progress(buffer[..], n, from, s, find, world) && from < next <= n
      requires NEWLINE !in buffer[from..next - 1] && buffer[next - 1] == NEWLINE
      requires buffer !in dev.issued
      modifies this`fPos, this`sent, dev, dev.buff, dev.buff.entry
      modifies if dev.buffPtr == null then {} else {dev.buffPtr}
      ensures buffer[..] == old(buffer[..])
      ensures ok ==> Progress(buffer[..], n, next, s, find, world)
      ensures !ok ==> Ready() && View(true) == ServeAll(s, Requests(buffer[..], n, 0, find, world))
      ensures dev.buffPtr == null || dev.buffPtr == old(dev.buffPtr) || fresh(dev.buffPtr)
      ensures fresh(dev.issued - old(dev.issued))
    {
      hide RestOf, Serve, LineEnd, Device.Valid, Requests, ServeAll;
      dev.StageIssued();
      ghost var bytes, before := buffer[..], View(false);
      ServeRestStep(before, bytes, n, from, next, find, world);
      ok := ServeSegment(RequestAt(buffer[..], n, from, next, find, world));
      if !ok { FailedStays(View(true), Requests(bytes, n, next, find, world)); }
    }

    /** Serves every complete segment of buffer[..bufferLen], in order, and hands back what follows the
        last one. The replies and the device are those of serving the lines one by one; where a write
        comes back short the process exits there, with nothing after it served. */
    method ProcessBuffer(buffer: array<byte>, bufferLen: nat, residual: array<byte>, find: Scanner, world: World)
      returns (ok: bool, residualSize: nat)
      requires Ready() && world.Covers(bufferLen)
      requires bufferLen <= buffer.Length && bufferLen <= residual.Length
      requires buffer != residual && buffer !in dev.issued && residual !in dev.issued
      modifies this`fPos, this`sent, dev, dev.buff, dev.buff.entry, residual
      modifies if dev.buffPtr == null then {} else {dev.buffPtr}
      ensures Ready() && buffer[..] == old(buffer[..])
      ensures View(!ok) == ServeAll(old(View(false)), Requests(buffer[..], bufferLen, 0, find, world))
      ensures forall qs :: AskedBy(qs, buffer[..], bufferLen, 0, find, world) ==>
                Served(qs) && View(!ok) == ServeAll(old(View(false)), qs)
      ensures ok ==> residualSize == |RestOf(buffer[..bufferLen])| <= residual.Length
      ensures ok ==> residual[..residualSize] == RestOf(buffer[..bufferLen])
      ensures ok ==> residual[residualSize..] == old(residual[residualSize..])
      ensures dev.buffPtr == null || dev.buffPtr == old(dev.buffPtr) || fresh(dev.buffPtr)
      ensures fresh(dev.issued - old(dev.issued))
    {
      hide RestOf, Requests, ServeAll, View, Device.Valid, ServeRest, AskedBy;
      OnlyThose(buffer[..], bufferLen, find, world);
      ghost var s := View(false);
      StartProgress(buffer[..], bufferLen, find, world);
      var segmentLen: nat, segmentPtr: nat := 0, 0;
      for rd := 0 to bufferLen
        invariant segmentPtr + segmentLen == rd && NEWLINE !in buffer[segmentPtr..rd]
        invariant Progress(buffer[..], bufferLen, segmentPtr, s, find, world)
        invariant buffer[..] == old(buffer[..]) && residual[..] == old(residual[..])
        invariant fresh(dev.issued - old(dev.issued))
        invariant dev.buffPtr == null || dev.buffPtr == old(dev.buffPtr) || fresh(dev.buffPtr)
      {
        segmentLen := segmentLen + 1;
        if buffer[rd] == NEWLINE {
          dev.StageIssued();
          var served := ServeNext(buffer, bufferLen, segmentPtr, segmentPtr + segmentLen, s, find, world);
          if !served {
            return false, 0;
          }
          segmentPtr := segmentPtr + segmentLen;
          segmentLen := 0;
        }
      }
      EndProgress(buffer[..], bufferLen, segmentPtr, s, find, world);
      if segmentLen != 0 {
        forall i | 0 <= i < segmentLen {
          residual[i] := buffer[segmentPtr + i];
        }
      }
      ok, residualSize := true, segmentLen;
    }

    lemma OnlyThose(bytes: seq<byte>, n: nat, find: Scanner, world: World)
      requires n <= |bytes| && world.Covers(n)
      ensures forall qs :: AskedBy(qs, bytes, n, 0, find, world) ==> qs == Requests(bytes, n, 0, find, world)
    {
      hide AskedBy, Requests;
      RequestsAsked(bytes, n, 0, find, world);
      forall qs | AskedBy(qs, bytes, n, 0, find, world)
        ensures qs == Requests(bytes, n, 0, find, world)
      {
        AskedByOnce(qs, Requests(bytes, n, 0, find, world), bytes, n, 0, find, world);
      }
    }

    lemma StartProgress(bytes: seq<byte>, n: nat, find: Scanner, world: World)
      requires Ready() && n <= |bytes| && world.Covers(n)
      ensures Progress(bytes, n, 0, View(false), find, world)
    {
      assert bytes[0..n] == bytes[..n];
    }

    lemma EndProgress(bytes: seq<byte>, n: nat, from: nat, s: Session, find: Scanner, world: World)
      requires Progress(bytes, n, from, s, find, world) && NEWLINE !in bytes[from..n]
      ensures Ready() && View(false) == ServeAll(s, Requests(bytes, n, 0, find, world))
      ensures bytes[from..n] == RestOf(bytes[..n])
    {
    }
  }

  /** What serving the segments from a position on leads to. */
  function ServeRest(s: Session, bytes: seq<byte>, n: nat, from: nat, find: Scanner, world: World): Session
    requires from <= n <= |bytes| && world.Covers(n)
  {
    ServeAll(s, Requests(bytes, n, from, find, world))
  }

  lemma ServeRestStep(s: Session, bytes: seq<byte>, n: nat, from: nat, next: nat, find: Scanner, world: World)
    requires from < next <= n <= |bytes| && world.Covers(n)
    requires NEWLINE !in bytes[from..next - 1] && bytes[next - 1] == NEWLINE
    ensures ServeRest(s, bytes, n, from, find, world)
            == ServeRest(Serve(s, RequestAt(bytes, n, from, next, find, world)), bytes, n, next, find, world)
    ensures RestOf(bytes[from..n]) == RestOf(bytes[next..n])
  {
    NextRequest(bytes, n, from, next, find, world);
  }

  /** After a failure nothing more is served. */
  lemma {:induction false} FailedStays(s: Session, rest: seq<Request>)
    requires Served(rest) && s.failed
    ensures ServeAll(s, rest) == s
    decreases |rest|
  {
    if rest != [] { FailedStays(Serve(s, rest[0]), rest[1..]); }
  }
}
