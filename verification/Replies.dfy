/** What a row of reads delivers: ProcessBuffer reads the device until a read returns nothing. */
module Replies {
  import opened Prelude
  import opened Positions
  import opened Content

  /** What one read asks for. */
  const READ_SIZE: nat := 4096

  /** What a row of reads of these sizes delivers, each starting where the one before it ended. */
  function Reads(ring: seq<seq<byte>>, pos: nat, counts: seq<nat>): seq<byte>
    decreases |counts|
  {
    if counts == [] then []
    else
      var d := ReadData(ring, pos, counts[0]);
      d + Reads(ring, pos + |d|, counts[1..])
  }

  /** What n reads in a row deliver. */
  function Received(ring: seq<seq<byte>>, pos: nat, n: nat): seq<byte>
  {
    if n == 0 then []
    else
      var r := Received(ring, pos, n - 1);
      r + ReadData(ring, pos + |r|, READ_SIZE)
  }

  /** What the read loop delivers: the content to its end, or what the reads before an interrupted one did. */
  function Delivered(ring: seq<seq<byte>>, pos: nat, cut: Option<nat>): seq<byte>
  {
    match cut
    case None => Suffix(Flat(ring), pos)
    case Some(n) => Received(ring, pos, n)
  }

  /** Any positive sizes will do: reads in a row deliver the content from where they start, each byte
      once and in order, and enough of them reach its end. */
  lemma {:induction false} ReadsToExhaustion(ring: seq<seq<byte>>, pos: nat, counts: seq<nat>)
    requires forall i :: 0 <= i < |counts| ==> counts[i] > 0
    ensures Reads(ring, pos, counts) <= Suffix(Flat(ring), pos)
    ensures |counts| >= |Suffix(Flat(ring), pos)| ==> Reads(ring, pos, counts) == Suffix(Flat(ring), pos)
    decreases |counts|
  {
    hide Suffix, ReadData, Flat;
    if counts != [] {
      var d := ReadData(ring, pos, counts[0]);
      ReadMeaning(ring, pos, counts[0]);
      ReadsToExhaustion(ring, pos + |d|, counts[1..]);
    }
  }

  lemma ReceivedNothing(ring: seq<seq<byte>>, pos: nat)
    ensures Received(ring, pos, 0) == []
  {
  }

  lemma ReceivedNext(ring: seq<seq<byte>>, pos: nat, n: nat)
    ensures var r := Received(ring, pos, n); Received(ring, pos, n + 1) == r + ReadData(ring, pos + |r|, READ_SIZE)
  {
  }

  /** What has been received and what is left make up the whole. */
  lemma {:induction false} ReceivedPart(ring: seq<seq<byte>>, pos: nat, n: nat)
    ensures var r := Received(ring, pos, n);
            && r + Suffix(Flat(ring), pos + |r|) == Suffix(Flat(ring), pos)
            && (n <= |r| || Suffix(Flat(ring), pos + |r|) == [])
  {
    ReceivedNothing(ring, pos);
    hide ReadData, Suffix, Flat, Received;
    if n > 0 {
      var r := Received(ring, pos, n - 1);
      ReceivedPart(ring, pos, n - 1);
      ReceivedNext(ring, pos, n - 1);
      ReadMeaning(ring, pos + |r|, READ_SIZE);
      MoreOfSuffix(Flat(ring), pos, r, ReadData(ring, pos + |r|, READ_SIZE));
    }
  }

  lemma MoreOfSuffix(content: seq<byte>, pos: nat, r: seq<byte>, d: seq<byte>)
    requires r + Suffix(content, pos + |r|) == Suffix(content, pos)
    requires Suffix(content, pos + |r|) == d + Suffix(content, pos + |r| + |d|)
    ensures r + d + Suffix(content, pos + |r + d|) == Suffix(content, pos)
  {
    hide Suffix;
    var rest := Suffix(content, pos + |r| + |d|);
    assert r + d + rest == r + (d + rest);
  }

  /** A reply that has met the end of the content is complete, wherever it might have been cut later. */
  lemma {:induction false} ReceivedAll(ring: seq<seq<byte>>, pos: nat, n: nat, more: nat)
    requires n <= more && Suffix(Flat(ring), pos + |Received(ring, pos, n)|) == []
    ensures Received(ring, pos, more) == Received(ring, pos, n)
    decreases more
  {
    hide ReadData, Suffix, Flat, Received;
    if n < more {
      ReceivedAll(ring, pos, n, more - 1);
      ReceivedNext(ring, pos, more - 1);
      var r := Received(ring, pos, n);
      ReadMeaning(ring, pos + |r|, READ_SIZE);
      assert r + [] == r;
    }
  }

  /** A file that stood at from has been read done times, and now stands at fPos. */
  ghost predicate SoFar(ring: seq<seq<byte>>, from: loff, lseek: loff, fPos: loff, reply: seq<byte>, done: nat)
  {
    var pos := ActualPos(from, lseek);
    && reply == Received(ring, pos, done) && fPos == ToLoff(from + |reply|) && ActualPos(fPos, lseek) == pos + |reply|
    && (reply == [] || pos + |reply| <= |Flat(ring)|)
  }

  lemma NothingSoFar(ring: seq<seq<byte>>, from: loff, lseek: loff)
    ensures SoFar(ring, from, lseek, from, [], 0)
  {
    hide ActualPos, Flat;
    ToLoffKeeps(from);
  }

  lemma WhereReadStands(ring: seq<seq<byte>>, from: loff, lseek: loff, fPos: loff, reply: seq<byte>, done: nat)
    requires SoFar(ring, from, lseek, fPos, reply, done)
    ensures reply == Received(ring, ActualPos(from, lseek), done) && fPos == ToLoff(from + |reply|)
    ensures ActualPos(fPos, lseek) == ActualPos(from, lseek) + |reply|
  {
  }

  /** A read that delivers nothing, though something was asked for, has met the end. */
  lemma AllSoFar(ring: seq<seq<byte>>, from: loff, lseek: loff, fPos: loff, reply: seq<byte>, done: nat,
                 cut: Option<nat>)
    requires SoFar(ring, from, lseek, fPos, reply, done) && (cut.Some? ==> done <= cut.value)
    requires ReadData(ring, ActualPos(fPos, lseek), READ_SIZE) == []
    ensures reply == Delivered(ring, ActualPos(from, lseek), cut)
  {
    hide ActualPos, Flat, ToLoff, Received, ReadData, Suffix;
    var pos := ActualPos(from, lseek);
    ReadMeaning(ring, ActualPos(fPos, lseek), READ_SIZE);
    ReceivedPart(ring, pos, done);
    if cut.Some? { ReceivedAll(ring, pos, done, cut.value); }
  }

  /** A read that delivers something moves on by as much. */
  lemma MoreSoFar(ring: seq<seq<byte>>, from: loff, lseek: loff, fPos: loff, reply: seq<byte>, done: nat,
                  data: seq<byte>)
    requires SoFar(ring, from, lseek, fPos, reply, done) && |Flat(ring)| < 0x8000_0000
    requires data == ReadData(ring, ActualPos(fPos, lseek), READ_SIZE) && data != []
    ensures SoFar(ring, from, lseek, ToLoff(fPos + |data|), reply + data, done + 1)
    ensures var pos := ActualPos(from, lseek) + |reply|;
            |Suffix(Flat(ring), pos + |data|)| < |Suffix(Flat(ring), pos)|
  {
    hide ActualPos, Flat, ToLoff, ReadData, Suffix, Received;
    var pos := ActualPos(from, lseek);
    ReceivedNext(ring, pos, done);
    ReadMeaning(ring, pos + |reply|, READ_SIZE);
    ActualPosAdvances(from, lseek, |reply| + |data|);
    ToLoffAdds(from + |reply|, |data|);
  }

  // ---- How many reads a reply takes ----

  /** Reads that it takes to get n bytes of one entry. */
  function ReadsFor(n: nat): nat { (n + READ_SIZE - 1) / READ_SIZE }

  /** Reads that it takes from pos to the end: no read goes past the end of an entry. */
  function Needed(ring: seq<seq<byte>>, pos: nat): nat
    decreases |ring|
  {
    if ring == [] then 0
    else if pos >= |ring[0]| then Needed(ring[1..], pos - |ring[0]|)
    else ReadsFor(|ring[0]| - pos) + Needed(ring[1..], 0)
  }

  /** Past the first entry a read is a read of the others. */
  lemma ReadBeyond(ring: seq<seq<byte>>, pos: nat, count: nat)
    requires ring != [] && pos >= |ring[0]|
    ensures ReadData(ring, pos, count) == ReadData(ring[1..], pos - |ring[0]|, count)
  {
    assert SizesOf(ring)[1..] == SizesOf(ring[1..]);
  }

  lemma ReadFirst(ring: seq<seq<byte>>, pos: nat, count: nat)
    requires ring != [] && pos < |ring[0]|
    ensures ReadData(ring, pos, count) == ring[0][pos..pos + Min(|ring[0]| - pos, count)]
  {
  }

  lemma ReadsForLess(n: nat)
    requires n > 0
    ensures ReadsFor(n) == 1 + ReadsFor(n - Min(n, READ_SIZE))
  {
  }

  /** A read that returns something is one of those needed; where none is needed it returns nothing. */
  lemma {:induction false} NeededStep(ring: seq<seq<byte>>, pos: nat)
    ensures var d := ReadData(ring, pos, READ_SIZE);
            Needed(ring, pos) == if d == [] then 0 else 1 + Needed(ring, pos + |d|)
    decreases |ring|
  {
    hide ReadData, ReadsFor;
    if ring == [] {
      ReadNothing(ring, pos, READ_SIZE);
    } else if pos >= |ring[0]| {
      ReadBeyond(ring, pos, READ_SIZE);
      NeededStep(ring[1..], pos - |ring[0]|);
    } else {
      ReadFirst(ring, pos, READ_SIZE);
      ReadsForLess(|ring[0]| - pos);
      NoneFor();
    }
  }

  lemma NoneFor()
    ensures ReadsFor(0) == 0
  {
  }

  /** Every read that goes through leaves one less, until none is left. */
  lemma {:induction false} NeededLeft(ring: seq<seq<byte>>, pos: nat, n: nat)
    ensures Needed(ring, pos + |Received(ring, pos, n)|) == if n >= Needed(ring, pos) then 0 else Needed(ring, pos) - n
  {
    ReceivedNothing(ring, pos);
    hide ReadData, Needed, Received;
    if n > 0 {
      NeededLeft(ring, pos, n - 1);
      ReceivedNext(ring, pos, n - 1);
      NeededStep(ring, pos + |Received(ring, pos, n - 1)|);
    }
  }

  /** None is needed exactly where nothing is left. */
  lemma NeededNone(ring: seq<seq<byte>>, pos: nat)
    ensures Needed(ring, pos) == 0 <==> Suffix(Flat(ring), pos) == []
  {
    hide ReadData, Needed, Flat, Suffix;
    NeededStep(ring, pos);
    ReadMeaning(ring, pos, READ_SIZE);
  }

  /** An interrupted reply is the beginning of the whole one, and is all of it exactly if as many reads went
      through as the rest of each entry needs. */
  lemma InterruptedReply(ring: seq<seq<byte>>, pos: nat, n: nat)
    ensures Delivered(ring, pos, Some(n)) <= Delivered(ring, pos, None)
    ensures Delivered(ring, pos, Some(n)) == Delivered(ring, pos, None) <==> n >= Needed(ring, pos)
  {
    hide Flat, Suffix, Received, Needed;
    ReceivedPart(ring, pos, n);
    NeededLeft(ring, pos, n);
    NeededNone(ring, pos + |Received(ring, pos, n)|);
  }

  /** No read is interrupted before the end of the content. */
  predicate Uncut(ring: seq<seq<byte>>, pos: nat, cut: Option<nat>)
  {
    cut.Some? ==> cut.value >= Needed(ring, pos)
  }

  lemma UncutWhole(ring: seq<seq<byte>>, pos: nat, cut: Option<nat>)
    ensures Delivered(ring, pos, cut) == Suffix(Flat(ring), pos) <==> Uncut(ring, pos, cut)
  {
    hide Flat, Suffix, Received, Needed;
    if cut.Some? { InterruptedReply(ring, pos, cut.value); }
  }
}
