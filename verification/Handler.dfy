/** connectionHandlerThread.c: one connection, which opens the device for every batch it receives. */
module Handlers {
  import opened Prelude
  import opened Lines
  import opened Stream
  import opened Sessions
  import opened Visits
  import opened Receives
  import opened Devices
  import opened Servers

  /** What a receive leaves in the buffer, how many of its bytes are to be processed, and what the driver
      calls made for them will meet. */
  datatype Receipt = Receipt(bytes: seq<byte>, n: nat, world: World) {
    predicate Valid() { n <= |bytes| && world.Covers(n) }

    function Batch(find: Scanner): (qs: seq<Request>)
      requires Valid()
      ensures Served(qs)
    {
      Requests(bytes, n, 0, find, world)
    }
  }

  type Receipts = rs: seq<Receipt> | forall i :: 0 <= i < |rs| ==> rs[i].Valid() witness []

  function BatchesOf(rs: Receipts, find: Scanner): (bs: Batches)
    ensures |bs| == |rs|
  {
    seq(|rs|, i requires 0 <= i < |rs| => rs[i].Batch(find))
  }

  /** A receive: how many bytes the network has for it at most, and what the driver calls of the round meet. */
  datatype Arrival = Arrival(ask: nat, world: World)

  type Arrivals = xs: seq<Arrival> | forall i :: 0 <= i < |xs| ==> xs[i].world.Covers(BUFFER_SIZE) witness []

  function Asks(arrivals: Arrivals): (asks: seq<nat>)
    ensures |asks| == |arrivals|
  {
    seq(|arrivals|, i requires 0 <= i < |arrivals| => arrivals[i].ask)
  }

  /** What ProcessBuffer finds in each round. */
  function ReceiptsOf(b: Inbox, stream: seq<byte>, arrivals: Arrivals): Receipts
    requires b.Valid(stream)
    decreases |arrivals|
  {
    if arrivals == [] || Chunk(b, stream, arrivals[0].ask) == [] then []
    else
      var x := arrivals[0];
      [Receipt(Filled(b, stream, x.ask), |Processed(b, stream, x.ask)|, x.world)]
      + ReceiptsOf(Next(b, stream, x.ask), stream, arrivals[1..])
  }

  function AllSegments(bs: seq<seq<Request>>): seq<seq<byte>>
  {
    if bs == [] then [] else Segments(bs[0]) + AllSegments(bs[1..])
  }

  /** The segments of the batches are those of the rounds. */
  lemma {:induction false} SegmentsOfBatches(b: Inbox, stream: seq<byte>, arrivals: Arrivals, find: Scanner)
    requires b.Valid(stream)
    ensures AllSegments(BatchesOf(ReceiptsOf(b, stream, arrivals), find))
            == SegmentsServed(b, stream, Asks(arrivals))
    decreases |arrivals|
  {
    hide Segments, Requests, LinesOf, Next, Chunk, Processed, Filled;
    if arrivals != [] && Chunk(b, stream, arrivals[0].ask) != [] {
      var (x, rs) := (arrivals[0], ReceiptsOf(b, stream, arrivals));
      var rest := ReceiptsOf(Next(b, stream, x.ask), stream, arrivals[1..]);
      assert Asks(arrivals)[1..] == Asks(arrivals[1..]);
      assert rs[1..] == rest && BatchesOf(rs, find)[1..] == BatchesOf(rest, find);
      SegmentsOfBatches(Next(b, stream, x.ask), stream, arrivals[1..], find);
      BatchSegments(rs[0], find);
      ProcessedIs(b, stream, x.ask);
    }
  }

  lemma BatchSegments(r: Receipt, find: Scanner)
    requires r.Valid()
    ensures Segments(r.Batch(find)) == LinesOf(r.bytes[..r.n])
  {
    SegmentsAreLines(r.bytes, r.n, 0, find, r.world);
    assert r.bytes[0..r.n] == r.bytes[..r.n];
  }

  lemma BatchIs(r: Receipt, find: Scanner)
    requires r.Valid()
    ensures r.Batch(find) == Requests(r.bytes, r.n, 0, find, r.world)
  {
  }

  lemma ProcessedIs(b: Inbox, stream: seq<byte>, ask: nat)
    requires b.Valid(stream)
    ensures |Processed(b, stream, ask)| <= |Filled(b, stream, ask)|
    ensures Processed(b, stream, ask) == Filled(b, stream, ask)[..|Processed(b, stream, ask)|]
  {
  }

  /** What the server takes for requests are the lines the client has sent, each once and in order, exactly
      if no round finds a newline any more once a receive has ended inside a line. */
  lemma RequestsAreLinesSent(buffer: seq<byte>, stream: seq<byte>, arrivals: Arrivals, find: Scanner)
    requires |buffer| == BUFFER_SIZE
    ensures var (b, asks) := (Inbox(buffer, 0, 0), Asks(arrivals));
            AllSegments(BatchesOf(ReceiptsOf(b, stream, arrivals), find)) == LinesOf(stream[..TakenBy(b, stream, asks)])
            <==> Framed(b, stream, asks)
  {
    hide LinesOf, AllSegments, TakenBy, Framed, SegmentsServed;
    var (b, asks) := (Inbox(buffer, 0, 0), Asks(arrivals));
    SegmentsOfBatches(b, stream, arrivals, find);
    FramedIff(b, stream, asks);
    assert stream[0..TakenBy(b, stream, asks)] == stream[..TakenBy(b, stream, asks)];
  }

  ghost function IdleOf(dev: Device): Idle
    reads dev
  {
    Idle(dev.view, dev.lseekPos)
  }

  /** Opens the device, processes the buffer and closes the device again. */
  method ServeBatch(dev: Device, buffer: array<byte>, n: nat, residual: array<byte>, find: Scanner, world: World)
    returns (ok: bool, sent: seq<seq<byte>>, residualSize: nat)
    requires dev.Ready() && world.Covers(n) && n <= buffer.Length && n <= residual.Length
    requires buffer != residual && buffer !in dev.issued && residual !in dev.issued
    modifies dev, dev.buff, dev.buff.entry, residual
    modifies if dev.buffPtr == null then {} else {dev.buffPtr}
    ensures dev.Ready() && buffer[..] == old(buffer[..])
    ensures var s := ServeAll(Open(old(IdleOf(dev))), Requests(buffer[..], n, 0, find, world));
            ok == !s.failed && sent == s.sent && IdleOf(dev) == Close(s)
    ensures ok ==> residualSize <= residual.Length && residual[..residualSize] == RestOf(buffer[..n])
    ensures dev.buffPtr == null || dev.buffPtr == old(dev.buffPtr) || fresh(dev.buffPtr)
    ensures fresh(dev.issued - old(dev.issued))
  {
    hide Requests, ServeAll, RestOf, Device.Valid;
    var server := new Server(dev);
    ok, residualSize := server.ProcessBuffer(buffer, n, residual, find, world);
    sent := server.sent;
    dev.Release();
  }

  /** The first of these batches have been served, one visit each, and answered as in those visits. */
  ghost predicate ServedSo(d: Idle, bs: Batches, now: Idle, replies: seq<seq<seq<byte>>>)
  {
    && |replies| <= |bs| && now == AfterVisits(d, bs[..|replies|])
    && forall k :: 0 <= k < |replies| ==> replies[k] == LastVisit(d, bs[..k + 1]).sent
  }

  lemma ServedNone(d: Idle, bs: Batches)
    ensures ServedSo(d, bs, d, [])
  {
    assert bs[..0] == [];
  }

  /** One more visit. */
  lemma ServedNext(d: Idle, bs: Batches, now: Idle, replies: seq<seq<seq<byte>>>)
    requires ServedSo(d, bs, now, replies) && |replies| < |bs|
    ensures var (n, s) := (|replies|, ServeAll(Open(now), bs[|replies|]));
            && ServedSo(d, bs, Close(s), replies + [s.sent])
            && LastVisit(d, bs[..n + 1]) == s
  {
    hide ServeAll;
    var (n, s) := (|replies|, ServeAll(Open(now), bs[|replies|]));
    var more := replies + [s.sent];
    var firsts: Batches := bs[..n + 1];
    assert firsts[..n] == bs[..n] && firsts[n] == bs[n] && |more| == n + 1;
    assert LastVisit(d, firsts) == s && AfterVisits(d, firsts) == Close(s);
    forall k | 0 <= k < |more|
      ensures more[k] == LastVisit(d, bs[..k + 1]).sent
    {
      if k < n { assert more[k] == replies[k]; }
    }
  }

  /** A receive writes to the start of the buffer. */
  method Recv(buffer: array<byte>, stream: seq<byte>, taken: nat, got: nat)
    requires got <= buffer.Length && taken + got <= |stream|
    modifies buffer
    ensures buffer[..] == stream[taken..taken + got] + old(buffer[got..])
  {
    forall j | 0 <= j < got {
      buffer[j] := stream[taken + j];
    }
  }

  /** memcpy with its arguments as the source has them: the residual is overwritten from the buffer. */
  method CopyResidual(residual: array<byte>, buffer: array<byte>, n: nat)
    requires n <= residual.Length && n <= buffer.Length && residual != buffer
    modifies residual
    ensures residual[..] == buffer[..n] + old(residual[n..])
  {
    forall j | 0 <= j < n {
      residual[j] := buffer[j];
    }
  }

  /** One round: a receive, the batch it makes, and the copy of the residual. */
  method ServeRound(dev: Device, buffer: array<byte>, residual: array<byte>, stream: seq<byte>, taken: nat, got: nat,
                    residualSize: nat, find: Scanner, world: World)
    returns (served: bool, sent: seq<seq<byte>>, rest: nat)
    requires dev.Ready() && buffer.Length == residual.Length == BUFFER_SIZE && world.Covers(BUFFER_SIZE)
    requires got + residualSize <= BUFFER_SIZE && taken + got <= |stream|
    requires buffer != residual && buffer !in dev.issued && residual !in dev.issued
    modifies dev, dev.buff, dev.buff.entry, buffer, residual
    modifies if dev.buffPtr == null then {} else {dev.buffPtr}
    ensures dev.Ready() && buffer[..] == stream[taken..taken + got] + old(buffer[got..])
    ensures var s := ServeAll(Open(old(IdleOf(dev))), Requests(buffer[..], got + residualSize, 0, find, world));
            served == !s.failed && sent == s.sent && IdleOf(dev) == Close(s)
    ensures served ==> rest == |RestOf(buffer[..got + residualSize])| <= BUFFER_SIZE
    ensures dev.buffPtr == null || dev.buffPtr == old(dev.buffPtr) || fresh(dev.buffPtr)
    ensures fresh(dev.issued - old(dev.issued)) && buffer !in dev.issued && residual !in dev.issued
  {
    hide ServeAll, Device.Valid, Requests, RestOf;
    dev.ReadyStage();
    Recv(buffer, stream, taken, got);
    served, sent, rest := ServeBatch(dev, buffer, got + residualSize, residual, find, world);
    dev.ReadyStage();
    if served && rest > 0 {
      CopyResidual(residual, buffer, rest);
    }
  }

  /** The rounds served so far, and those still to come. */
  ghost predicate Rounds(all: Receipts, done: nat, b: Inbox, stream: seq<byte>, arrivals: Arrivals)
  {
    b.Valid(stream) && done <= |all| && all[done..] == ReceiptsOf(b, stream, arrivals)
  }

  lemma NextRound(all: Receipts, done: nat, b: Inbox, stream: seq<byte>, arrivals: Arrivals)
    requires Rounds(all, done, b, stream, arrivals) && arrivals != []
    ensures b.Valid(stream)
    ensures var x := arrivals[0];
            if Chunk(b, stream, x.ask) == [] then done == |all|
            else
              && done < |all| && all[done].bytes == Filled(b, stream, x.ask) && all[done].world == x.world
              && all[done].n == |Chunk(b, stream, x.ask)| + b.residual
              && Rounds(all, done + 1, Next(b, stream, x.ask), stream, arrivals[1..])
  {
    hide Next, Filled, Chunk, Processed;
    var rs := ReceiptsOf(b, stream, arrivals);
    if Chunk(b, stream, arrivals[0].ask) != [] {
      assert rs[1..] == ReceiptsOf(Next(b, stream, arrivals[0].ask), stream, arrivals[1..]);
      assert all[done + 1..] == all[done..][1..] && all[done] == all[done..][0];
    }
  }

  /** The loop of ConnectionHandlerThread, up to the receive that brings nothing, or after which the process
      exits. To the device it is a row of visits, and the replies to each round are those of its visit.
      stack is what the buffer happens to hold at the start. */
  method ServeConnection(dev: Device, stack: seq<byte>, stream: seq<byte>, arrivals: Arrivals, find: Scanner)
    returns (ok: bool, replies: seq<seq<seq<byte>>>)
    requires dev.Ready() && |stack| == BUFFER_SIZE
    modifies dev, dev.buff, dev.buff.entry
    modifies if dev.buffPtr == null then {} else {dev.buffPtr}
    ensures dev.Ready()
    ensures var (d, bs) := (old(IdleOf(dev)), BatchesOf(ReceiptsOf(Inbox(stack, 0, 0), stream, arrivals), find));
            && ServedSo(d, bs, IdleOf(dev), replies) && (ok ==> |replies| == |bs|)
            && (!ok ==> replies != [] && LastVisit(d, bs[..|replies|]).failed)
  {
    hide ServeAll, Device.Valid, Requests, Device.Ready, LastVisit, RestOf, Rounds, ReceiptsOf, Filled, Chunk, Next;
    hide ServedSo, Receipt.Batch, AfterVisits, Device.Settled, World.Covers;
    replies := [];
    ghost var d := IdleOf(dev);
    ghost var rs := ReceiptsOf(Inbox(stack, 0, 0), stream, arrivals);
    ghost var bs := BatchesOf(rs, find);
    var buffer := new byte[BUFFER_SIZE](j requires 0 <= j < BUFFER_SIZE => stack[j]);
    var residual := new byte[BUFFER_SIZE];
    var residualSize: nat, taken: nat := 0, 0;
    FirstRound(stack, stream, arrivals, rs);
    ServedNone(d, bs);
    assert buffer[..] == stack;
    for i := 0 to |arrivals|
      invariant dev.Ready() && |replies| == i && residualSize <= BUFFER_SIZE
      invariant Rounds(rs, i, Inbox(buffer[..], residualSize, taken), stream, arrivals[i..])
      invariant i <= |rs| && taken <= |stream| && ServedSo(d, bs, IdleOf(dev), replies)
      invariant dev.buffPtr == null || dev.buffPtr == old(dev.buffPtr) || fresh(dev.buffPtr)
      invariant fresh(dev.issued - old(dev.issued)) && buffer !in dev.issued && residual !in dev.issued
    {
      ghost var b := Inbox(buffer[..], residualSize, taken);
      NextRound(rs, i, b, stream, arrivals[i..]);
      var got := Min(arrivals[i].ask, Min(BUFFER_SIZE - residualSize, |stream| - taken));
      ReceiveIs(b, stream, arrivals[i].ask, got);
      if got == 0 {
        return true, replies;
      }
      ServedNext(d, bs, IdleOf(dev), replies);
      BatchIs(rs[i], find);
      assert allocated(residual);
      var world := arrivals[i].world;
      var served, sent, rest := ServeRound(dev, buffer, residual, stream, taken, got, residualSize, find, world);
      replies := replies + [sent];
      if !served {
        return false, replies;
      }
      taken, residualSize := taken + got, rest;
    }
    LastRound(rs, |arrivals|, Inbox(buffer[..], residualSize, taken), stream);
    ok := true;
  }

  lemma FirstRound(stack: seq<byte>, stream: seq<byte>, arrivals: Arrivals, all: Receipts)
    requires |stack| == BUFFER_SIZE && all == ReceiptsOf(Inbox(stack, 0, 0), stream, arrivals)
    ensures Rounds(all, 0, Inbox(stack, 0, 0), stream, arrivals[0..])
  {
    hide ReceiptsOf;
    assert arrivals[0..] == arrivals && all[0..] == all;
  }

  lemma LastRound(all: Receipts, done: nat, b: Inbox, stream: seq<byte>)
    requires Rounds(all, done, b, stream, [])
    ensures done == |all|
  {
  }

  /** The receive in terms of the buffer. */
  lemma ReceiveIs(b: Inbox, stream: seq<byte>, ask: nat, got: nat)
    requires b.Valid(stream) && got == Min(ask, Min(BUFFER_SIZE - b.residual, |stream| - b.taken))
    ensures Chunk(b, stream, ask) == stream[b.taken..b.taken + got] && |Chunk(b, stream, ask)| == got
    ensures Filled(b, stream, ask) == stream[b.taken..b.taken + got] + b.buffer[got..]
    ensures Next(b, stream, ask) == Inbox(Filled(b, stream, ask),
                                          |RestOf(Filled(b, stream, ask)[..got + b.residual])|, b.taken + got)
  {
    hide RestOf;
  }
}
