/** connectionHandlerThread.c: what the receive loop hands to ProcessBuffer, round after round. */
module Receives {
  import opened Prelude
  import opened Lines

  /** The size of the buffer and of the residual. */
  const BUFFER_SIZE: nat := 400

  /** What is in the buffer, how long the residual of the last round is, and how many bytes of the client's
      stream have been received. */
  datatype Inbox = Inbox(buffer: seq<byte>, residual: nat, taken: nat) {
    predicate Valid(stream: seq<byte>)
    {
      |buffer| == BUFFER_SIZE && residual <= BUFFER_SIZE && taken <= |stream|
    }
  }

  /** What one receive brings when the network has ask bytes for it: room is left for the residual. */
  function Chunk(b: Inbox, stream: seq<byte>, ask: nat): (chunk: seq<byte>)
    requires b.Valid(stream)
    ensures |chunk| + b.residual <= BUFFER_SIZE && b.taken + |chunk| <= |stream|
  {
    stream[b.taken..b.taken + Min(ask, Min(BUFFER_SIZE - b.residual, |stream| - b.taken))]
  }

  /** A receive always writes to the start of the buffer. */
  function Filled(b: Inbox, stream: seq<byte>, ask: nat): (buffer: seq<byte>)
    requires b.Valid(stream)
    ensures |buffer| == BUFFER_SIZE
  {
    var chunk := Chunk(b, stream, ask);
    chunk + b.buffer[|chunk|..]
  }

  /** The bytes that ProcessBuffer is told to process: as many as were received and left over together. */
  function Processed(b: Inbox, stream: seq<byte>, ask: nat): (bytes: seq<byte>)
    requires b.Valid(stream)
    ensures |bytes| == |Chunk(b, stream, ask)| + b.residual
  {
    Filled(b, stream, ask)[..|Chunk(b, stream, ask)| + b.residual]
  }

  lemma {:induction false} RestShort(b: seq<byte>)
    ensures |RestOf(b)| <= |b|
    decreases |b|
  {
    if NEWLINE in b { RestShort(b[LineEnd(b)..]); }
  }

  /** A receive brings what was asked for, or what there is room for, or all there is, whichever is least; it
      goes to the start of the buffer, and the rest of the buffer stays. */
  lemma ReceiveBrings(b: Inbox, stream: seq<byte>, ask: nat)
    requires b.Valid(stream)
    ensures var (chunk, buffer) := (Chunk(b, stream, ask), Filled(b, stream, ask));
            && |chunk| <= ask && chunk == stream[b.taken..b.taken + |chunk|]
            && (|chunk| == ask || |chunk| + b.residual == BUFFER_SIZE || b.taken + |chunk| == |stream|)
            && chunk <= buffer && buffer[|chunk|..] == b.buffer[|chunk|..]
  {
  }

  function Next(b: Inbox, stream: seq<byte>, ask: nat): (b': Inbox)
    requires b.Valid(stream)
    ensures b'.Valid(stream)
  {
    RestShort(Processed(b, stream, ask));
    Inbox(Filled(b, stream, ask), |RestOf(Processed(b, stream, ask))|, b.taken + |Chunk(b, stream, ask)|)
  }

  /** The loop ends with the first receive that brings nothing. */
  predicate Closed(b: Inbox, stream: seq<byte>, asks: seq<nat>)
    requires b.Valid(stream)
  {
    asks == [] || Chunk(b, stream, asks[0]) == []
  }

  /** How much of the stream is received. */
  function TakenBy(b: Inbox, stream: seq<byte>, asks: seq<nat>): (end: nat)
    requires b.Valid(stream)
    ensures b.taken <= end <= |stream|
    decreases |asks|
  {
    if Closed(b, stream, asks) then b.taken else TakenBy(Next(b, stream, asks[0]), stream, asks[1..])
  }

  /** The segments of all rounds, in order. */
  function SegmentsServed(b: Inbox, stream: seq<byte>, asks: seq<nat>): seq<seq<byte>>
    requires b.Valid(stream)
    decreases |asks|
  {
    if Closed(b, stream, asks) then []
    else LinesOf(Processed(b, stream, asks[0])) + SegmentsServed(Next(b, stream, asks[0]), stream, asks[1..])
  }

  /** No round finds a newline in what it processes. */
  predicate Quiet(b: Inbox, stream: seq<byte>, asks: seq<nat>)
    requires b.Valid(stream)
    decreases |asks|
  {
    Closed(b, stream, asks)
    || (NEWLINE !in Processed(b, stream, asks[0]) && Quiet(Next(b, stream, asks[0]), stream, asks[1..]))
  }

  /** Once a receive ends inside a line, no later round finds a newline in what it processes. */
  predicate Framed(b: Inbox, stream: seq<byte>, asks: seq<nat>)
    requires b.Valid(stream)
    decreases |asks|
  {
    Closed(b, stream, asks)
    || (var b' := Next(b, stream, asks[0]);
        if b'.residual == 0 then Framed(b', stream, asks[1..]) else Quiet(b', stream, asks[1..]))
  }

  // ---- Lines across receives ----

  /** Complete lines and what follows them are cut where the lines end. */
  lemma LinesThrough(a: seq<byte>, b: seq<byte>)
    ensures LinesOf(a + b) == LinesOf(a) + LinesOf(RestOf(a) + b)
  {
    hide LinesOf, RestOf, IsLine;
    LinesOfSplits(a);
    LinesOfSplits(RestOf(a) + b);
    var (lines, more, rest) := (LinesOf(a), LinesOf(RestOf(a) + b), RestOf(RestOf(a) + b));
    FlatConcat(lines, more);
    assert Flat(lines + more) + rest == Flat(lines) + (Flat(more) + rest);
    assert Flat(lines) + (RestOf(a) + b) == a + b;
    SplitUnique(a + b, lines + more, rest);
  }

  /** The first line of p + chunk + more, p holding no newline. */
  lemma FirstLineLong(p: seq<byte>, chunk: seq<byte>, more: seq<byte>)
    requires NEWLINE !in p && LinesOf(p + chunk + more) != []
    ensures var line := LinesOf(p + chunk + more)[0];
            if NEWLINE in chunk then |line| == |p| + LineEnd(chunk) else |line| > |p| + |chunk|
  {
    var s := p + chunk + more;
    var n := LineEnd(s);
    assert LinesOf(s)[0] == s[..n];
    NewlineLast(s, n);
    if NEWLINE in chunk {
      var m := LineEnd(chunk);
      NewlineLast(chunk, m);
      assert s[|p| + m - 1] == NEWLINE;
      assert forall i :: 0 <= i < |p| + m - 1 ==> s[i] != NEWLINE by {
        assert forall i :: |p| <= i < |p| + m - 1 ==> s[i] == chunk[i - |p|];
      }
    } else {
      assert forall i :: |p| <= i < |p| + |chunk| ==> s[i] == chunk[i - |p|];
    }
  }

  /** What one more receive does to the bytes of the stream still to come. */
  lemma StreamStep(b: Inbox, stream: seq<byte>, asks: seq<nat>)
    requires b.Valid(stream) && !Closed(b, stream, asks)
    ensures var (b', end) := (Next(b, stream, asks[0]), TakenBy(b, stream, asks));
            && end == TakenBy(b', stream, asks[1..]) && b'.taken <= end
            && stream[b.taken..end] == Chunk(b, stream, asks[0]) + stream[b'.taken..end]
  {
    hide RestOf, LinesOf, Processed, Filled;
    var (b', end) := (Next(b, stream, asks[0]), TakenBy(b, stream, asks));
    SliceSplit(stream, b.taken, b'.taken, end);
  }

  lemma SliceSplit<T>(s: seq<T>, a: nat, b: nat, c: nat)
    requires a <= b <= c <= |s|
    ensures s[a..c] == s[a..b] + s[b..c]
  {
  }

  /** What was left over and is still in the buffer comes after what was received. */
  lemma ProcessedParts(b: Inbox, stream: seq<byte>, ask: nat)
    requires b.Valid(stream)
    ensures var (chunk, bytes) := (Chunk(b, stream, ask), Processed(b, stream, ask));
            && bytes == chunk + bytes[|chunk|..] && (b.residual == 0 ==> bytes == chunk)
  {
  }

  /** A first line served while p waits is not the line that was sent: it comes without p. */
  lemma FirstLineShort(p: seq<byte>, chunk: seq<byte>, stale: seq<byte>, more: seq<byte>)
    requires p != [] && NEWLINE !in p && |stale| == |p| && NEWLINE in chunk + stale
    ensures LinesOf(chunk + stale) != []
    ensures LinesOf(p + chunk + more) != [] ==> LinesOf(chunk + stale)[0] != LinesOf(p + chunk + more)[0]
  {
    var bytes := chunk + stale;
    LinesOfCons(bytes);
    if LinesOf(p + chunk + more) != [] {
      FirstLineLong(p, chunk, more);
      if NEWLINE in chunk {
        assert bytes[..LineEnd(chunk)] == chunk[..LineEnd(chunk)];
        LineEndIs(bytes, LineEnd(chunk));
      }
    }
  }

  /** While some bytes p wait to be completed, the segments served are the lines sent exactly if there are
      neither. */
  lemma {:induction false} Unaligned(b: Inbox, stream: seq<byte>, asks: seq<nat>, p: seq<byte>)
    requires b.Valid(stream) && p != [] && NEWLINE !in p && |p| == b.residual
    ensures SegmentsServed(b, stream, asks) == LinesOf(p + stream[b.taken..TakenBy(b, stream, asks)])
            <==> Quiet(b, stream, asks)
    decreases |asks|
  {
    hide LinesOf, RestOf, Chunk, Processed, Next;
    var end := TakenBy(b, stream, asks);
    if Closed(b, stream, asks) {
      assert p + stream[b.taken..end] == p;
      LinesOfNone(p);
    } else {
      var (chunk, bytes) := (Chunk(b, stream, asks[0]), Processed(b, stream, asks[0]));
      var b' := Next(b, stream, asks[0]);
      StreamStep(b, stream, asks);
      ProcessedParts(b, stream, asks[0]);
      NextIs(b, stream, asks[0]);
      var rest := stream[b'.taken..end];
      assert p + (chunk + rest) == p + chunk + rest;
      if NEWLINE in bytes {
        FirstLineShort(p, chunk, bytes[|chunk|..], rest);
      } else {
        assert NEWLINE !in p + chunk by { assert forall i :: 0 <= i < |chunk| ==> chunk[i] == bytes[i]; }
        LinesOfNone(bytes);
        Unaligned(b', stream, asks[1..], p + chunk);
      }
    }
  }

  lemma NextIs(b: Inbox, stream: seq<byte>, ask: nat)
    requires b.Valid(stream)
    ensures Next(b, stream, ask).residual == |RestOf(Processed(b, stream, ask))|
  {
  }

  lemma SameFront<T>(a: seq<T>, x: seq<T>, y: seq<T>)
    ensures a + x == a + y <==> x == y
  {
    if a + x == a + y { assert x == (a + x)[|a|..] == (a + y)[|a|..] == y; }
  }

  /** The segments served to the device are the lines of what the client sent, each once and in order,
      exactly if no round finds a newline any more once a receive has ended inside a line: what is left
      over then is neither put before the next receive nor kept from being overwritten by it. */
  lemma {:induction false} FramedIff(b: Inbox, stream: seq<byte>, asks: seq<nat>)
    requires b.Valid(stream) && b.residual == 0
    ensures SegmentsServed(b, stream, asks) == LinesOf(stream[b.taken..TakenBy(b, stream, asks)])
            <==> Framed(b, stream, asks)
    decreases |asks|
  {
    hide LinesOf, RestOf, Chunk, Processed, Next;
    var end := TakenBy(b, stream, asks);
    if Closed(b, stream, asks) {
      assert stream[b.taken..end] == [];
      LinesOfNone([]);
    } else {
      var chunk := Chunk(b, stream, asks[0]);
      var b' := Next(b, stream, asks[0]);
      StreamStep(b, stream, asks);
      ProcessedParts(b, stream, asks[0]);
      NextIs(b, stream, asks[0]);
      var rest := stream[b'.taken..end];
      LinesThrough(chunk, rest);
      LinesOfSplits(chunk);
      SameFront(LinesOf(chunk), SegmentsServed(b', stream, asks[1..]), LinesOf(RestOf(chunk) + rest));
      if b'.residual == 0 {
        assert RestOf(chunk) + rest == rest;
        FramedIff(b', stream, asks[1..]);
      } else {
        Unaligned(b', stream, asks[1..], RestOf(chunk));
      }
    }
  }

  /** Every receive ends with a line. */
  predicate WholeLines(b: Inbox, stream: seq<byte>, asks: seq<nat>)
    requires b.Valid(stream)
    decreases |asks|
  {
    Closed(b, stream, asks)
    || (var chunk := Chunk(b, stream, asks[0]);
        chunk[|chunk| - 1] == NEWLINE && WholeLines(Next(b, stream, asks[0]), stream, asks[1..]))
  }

  lemma {:induction false} WholeLinesFramed(b: Inbox, stream: seq<byte>, asks: seq<nat>)
    requires b.Valid(stream) && b.residual == 0 && WholeLines(b, stream, asks)
    ensures Framed(b, stream, asks)
    decreases |asks|
  {
    hide LinesOf, RestOf, Chunk, Processed, Next;
    if !Closed(b, stream, asks) {
      var chunk := Chunk(b, stream, asks[0]);
      ProcessedParts(b, stream, asks[0]);
      NextIs(b, stream, asks[0]);
      LinesSnoc(chunk[..|chunk| - 1], NEWLINE);
      assert chunk[..|chunk| - 1] + [NEWLINE] == chunk;
      WholeLinesFramed(Next(b, stream, asks[0]), stream, asks[1..]);
    }
  }

  /** So a client whose every send arrives as whole lines is served what it sent. */
  lemma WholeLinesServed(b: Inbox, stream: seq<byte>, asks: seq<nat>)
    requires b.Valid(stream) && b.residual == 0 && WholeLines(b, stream, asks)
    ensures SegmentsServed(b, stream, asks) == LinesOf(stream[b.taken..TakenBy(b, stream, asks)])
  {
    WholeLinesFramed(b, stream, asks);
    FramedIff(b, stream, asks);
  }

  /** One line that arrives in two parts is served without its first part, whatever the buffer held. */
  lemma SplitLineExample(buffer: seq<byte>)
    requires |buffer| == BUFFER_SIZE
    ensures var (b, stream) := (Inbox(buffer, 0, 0), [65, NEWLINE]);
            && TakenBy(b, stream, [1, 1]) == 2 && LinesOf(stream) == [stream]
            && SegmentsServed(b, stream, [1, 1]) != [] && SegmentsServed(b, stream, [1, 1])[0] == [NEWLINE]
            && !Framed(b, stream, [1, 1])
  {
    var b, stream: seq<byte> := Inbox(buffer, 0, 0), [65, NEWLINE];
    SplitLineFirst(buffer);
    SplitLineSecond(buffer);
    assert LinesOf(stream) == [stream] by {
      assert stream[..2] == stream && stream[2..] == [];
      LineEndIs(stream, 2);
      LinesOfCons(stream);
      LinesOfNone([]);
    }
  }

  lemma SplitLineFirst(buffer: seq<byte>)
    requires |buffer| == BUFFER_SIZE
    ensures var (b, stream) := (Inbox(buffer, 0, 0), [65, NEWLINE]);
            && Chunk(b, stream, 1) == [65] && Processed(b, stream, 1) == [65]
            && Next(b, stream, 1) == Inbox([65] + buffer[1..], 1, 1)
  {
    var b, stream: seq<byte> := Inbox(buffer, 0, 0), [65, NEWLINE];
    assert Chunk(b, stream, 1) == [65] && Processed(b, stream, 1) == [65];
    LinesOfNone([65]);
  }

  lemma SplitLineSecond(buffer: seq<byte>)
    requires |buffer| == BUFFER_SIZE
    ensures var (b, stream) := (Inbox([65] + buffer[1..], 1, 1), [65, NEWLINE]);
            && Chunk(b, stream, 1) == [NEWLINE] && Processed(b, stream, 1)[0] == NEWLINE
            && LinesOf(Processed(b, stream, 1)) != [] && LinesOf(Processed(b, stream, 1))[0] == [NEWLINE]
  {
    var b, stream: seq<byte> := Inbox([65] + buffer[1..], 1, 1), [65, NEWLINE];
    assert Chunk(b, stream, 1) == [NEWLINE];
    var bytes := Processed(b, stream, 1);
    assert bytes[..1] == [NEWLINE];
    LineEndIs(bytes, 1);
    LinesOfCons(bytes);
  }
}
