/** The ring's content as one byte string: where a read starts and ends, and where a seek may go. */
module Content {
  import opened Prelude
  import opened Positions
  import opened Rings

  /** The position a read uses: file position plus the device's seek position, in size_t arithmetic. */
  function ActualPos(fPos: loff, lseekPos: loff): nat
  {
    ToSizeT(ToSizeT(fPos) + ToSizeT(lseekPos))
  }

  /** How many bytes one read can deliver: never past the end of the entry it starts in. */
  function ReadLen(ring: seq<seq<byte>>, pos: nat, count: nat): (n: nat)
  {
    match Locate(SizesOf(ring), pos)
    case None => 0
    case Some((k, off)) => if k < |ring| && off <= |ring[k]| then Min(|ring[k]| - off, count) else 0
  }

  /** The bytes one read delivers, taken from the entry it starts in. */
  function ReadData(ring: seq<seq<byte>>, pos: nat, count: nat): (d: seq<byte>)
    ensures |d| == ReadLen(ring, pos, count)
  {
    match Locate(SizesOf(ring), pos)
    case None => []
    case Some((k, off)) =>
      if k < |ring| && off <= |ring[k]| then ring[k][off..off + ReadLen(ring, pos, count)] else []
  }

  /** What reaches the caller when copy_to_user leaves some bytes at the end uncopied. */
  function Copied(data: seq<byte>, uncopied: nat): seq<byte>
  {
    data[..|data| - Min(uncopied, |data|)]
  }

  /** data is what content holds at pos. */
  ghost predicate SliceAt(content: seq<byte>, pos: nat, data: seq<byte>)
  {
    data == [] || (pos + |data| <= |content| && content[pos..pos + |data|] == data)
  }

  /** What is left of content from pos on. */
  function Suffix(content: seq<byte>, pos: nat): seq<byte>
  {
    content[Min(pos, |content|)..]
  }

  /** The size of the slot cmd places after the oldest entry: the slot after the last entry is unused,
      or the oldest entry again when the ring is full. */
  function SlotSize(ring: seq<seq<byte>>, cmd: nat): nat
  {
    if cmd < |ring| then |ring[cmd]| else if |ring| == CAPACITY then |ring[0]| else 0
  }

  /** The position a seek to (cmd, off) selects, None where it is rejected. */
  function SeekTarget(ring: seq<seq<byte>>, cmd: nat, off: nat): Option<nat>
  {
    if cmd <= |ring| && off <= SlotSize(ring, cmd) then Some(PrefixSum(SizesOf(ring), cmd) + off) else None
  }

  datatype Whence = SEEK_SET | SEEK_CUR | SEEK_END | SEEK_OTHER

  /** The position aesd_llseek sets, total being the size of the content. */
  function LlseekTarget(total: nat, lseekPos: loff, off: loff, whence: Whence): loff
  {
    match whence
    case SEEK_SET => off
    case SEEK_CUR => ToLoff(lseekPos + off)
    case SEEK_END => ToLoff(total)
    case SEEK_OTHER => lseekPos
  }

  /** For positions that a loff_t can hold the sum is exact; a negative one becomes huge. */
  lemma ActualPosMeaning(fPos: loff, lseekPos: loff)
    ensures ActualPos(fPos, lseekPos) == if fPos + lseekPos >= 0 then fPos + lseekPos
                                         else fPos + lseekPos + SIZE_T_RANGE
  {
  }

  /** Advancing the file position advances the read position by as much, even where loff_t wraps. */
  lemma ActualPosAdvances(fPos: loff, lseekPos: loff, n: nat)
    requires ActualPos(fPos, lseekPos) + n < SIZE_T_RANGE && n < 0x8000_0000
    ensures ActualPos(ToLoff(fPos + n), lseekPos) == ActualPos(fPos, lseekPos) + n
  {
    ActualPosMeaning(fPos, lseekPos);
    if fPos + n < 0x8000_0000_0000_0000 {
      ActualPosMeaning(fPos + n, lseekPos);
    } else {
      var wrapped := fPos + n - SIZE_T_RANGE;
      assert ToLoff(fPos + n) == wrapped;
      ActualPosMeaning(wrapped, lseekPos);
    }
  }

  /** In terms of what the caller asks for and the ring holds: a seek is accepted exactly for a command number
      up to the count and an offset up to that command's size. For the number equal to the count that is the
      size of an unused slot, 0, or of the oldest entry if the ring is full. It selects the position that far
      behind all the commands before. */
  lemma SeekTargetIs(ring: seq<seq<byte>>, cmd: nat, off: nat)
    requires |ring| <= CAPACITY
    ensures SeekTarget(ring, cmd, off).Some? <==>
              && cmd <= |ring|
              && off <= if cmd < |ring| then |ring[cmd]| else if |ring| == CAPACITY then |ring[0]| else 0
    ensures var t := SeekTarget(ring, cmd, off);
            t.Some? ==> cmd <= |ring| && t.value == |Flat(ring[..cmd])| + off
  {
    if cmd <= |ring| { FlatSplit(ring, cmd); }
  }

  /** Which position each whence sets: the distance itself, the sum with the old position where a loff_t holds
      it and that sum reduced by 2^64 where not, the end of the content, or the position that was. */
  lemma LlseekTargetIs(total: nat, pos: loff, dist: loff)
    ensures LlseekTarget(total, pos, dist, SEEK_SET) == dist
    ensures var goal := LlseekTarget(total, pos, dist, SEEK_CUR);
            && (-0x8000_0000_0000_0000 <= pos + dist < 0x8000_0000_0000_0000 ==> goal == pos + dist)
            && (pos + dist >= 0x8000_0000_0000_0000 ==> goal == pos + dist - SIZE_T_RANGE)
            && (pos + dist < -0x8000_0000_0000_0000 ==> goal == pos + dist + SIZE_T_RANGE)
    ensures total < 0x8000_0000_0000_0000 ==> LlseekTarget(total, pos, dist, SEEK_END) == total
    ensures LlseekTarget(total, pos, dist, SEEK_OTHER) == pos
  {
  }

  /** Two moves from the current position add up, also where they wrap. */
  lemma LlseekMovesAdd(total: nat, pos: loff, a: loff, b: loff)
    ensures LlseekTarget(total, LlseekTarget(total, pos, a, SEEK_CUR), b, SEEK_CUR) == ToLoff(pos + a + b)
  {
    ToLoffAdds(pos + a, b);
  }

  /** A read from offset off of entry k on delivers that entry from there, as much as was asked for or is left
      of the entry, and never more. */
  lemma ReadIsEntry(ring: seq<seq<byte>>, k: nat, off: nat, count: nat)
    requires k < |ring| && off < |ring[k]|
    ensures ReadData(ring, |Flat(ring[..k])| + off, count) == ring[k][off..off + Min(|ring[k]| - off, count)]
  {
    FlatSplit(ring, k);
    PositionIndexBijection(SizesOf(ring), 0, k, off);
    ReadFound(ring, |Flat(ring[..k])| + off, count, k, off);
  }

  /** The content from the sum of two positions on: a sum below 0 counts from 2^64 down, and past the end
      there is nothing. */
  function ContentFrom(content: seq<byte>, sum: int): seq<byte>
  {
    var pos := if sum >= 0 then sum else sum + SIZE_T_RANGE;
    if 0 <= pos <= |content| then content[pos..] else []
  }

  lemma SuffixAt(content: seq<byte>, fPos: loff, lseekPos: loff)
    ensures Suffix(content, ActualPos(fPos, lseekPos)) == ContentFrom(content, fPos + lseekPos)
  {
    ActualPosMeaning(fPos, lseekPos);
    hide ActualPos;
    assert content[|content|..] == [];
  }

  /** All but the bytes not copied reaches the caller. */
  lemma CopiedIs(data: seq<byte>, uncopied: nat)
    ensures Copied(data, uncopied) <= data && |Copied(data, uncopied)| == |data| - Min(uncopied, |data|)
  {
  }

  lemma ToLoffKeeps(x: loff)
    ensures ToLoff(x) == x
  {
  }

  /** Wrapping once at the end is wrapping at every step. */
  lemma ToLoffAdds(x: int, n: int)
    ensures ToLoff(ToLoff(x) + n) == ToLoff(x + n)
  {
    var q := (x + 0x8000_0000_0000_0000) / SIZE_T_RANGE;
    assert ToLoff(x) == x - q * SIZE_T_RANGE;
  }

  lemma MulMonotone(a: nat, b: nat, m: nat)
    requires a <= b
    ensures a * m <= b * m
  {
  }

  lemma {:induction false} RingBounded(ring: seq<seq<byte>>, k: nat)
    requires k <= |ring| <= CAPACITY
    requires forall i :: 0 <= i < |ring| ==> |ring[i]| <= KMALLOC_MAX_SIZE
    ensures |Flat(ring)| <= CAPACITY * KMALLOC_MAX_SIZE
    ensures PrefixSum(SizesOf(ring), k) <= |Flat(ring)|
  {
    FlatLength(ring);
    PrefixSumBounded(SizesOf(ring), |ring|, KMALLOC_MAX_SIZE);
    PrefixSumMonotone(SizesOf(ring), k, |ring|);
    MulMonotone(|ring|, CAPACITY, KMALLOC_MAX_SIZE);
  }

  /** What a read delivers is the content at its position, cut off where an entry ends or the caller's
      buffer does; it delivers nothing exactly when nothing was asked for or there is nothing left. */
  lemma ReadMeaning(ring: seq<seq<byte>>, pos: nat, count: nat)
    ensures var d := ReadData(ring, pos, count);
            && |d| <= count && SliceAt(Flat(ring), pos, d)
            && Suffix(Flat(ring), pos) == d + Suffix(Flat(ring), pos + |d|)
            && (d == [] <==> count == 0 || Suffix(Flat(ring), pos) == [])
            && (d != [] ==> pos + |d| <= |Flat(ring)|)
  {
    hide Flat, Locate, SizesOf, PrefixSum, ReadData;
    FlatLength(ring);
    LocateCorrect(SizesOf(ring), pos);
    var r := Locate(SizesOf(ring), pos);
    if r.Some? {
      var (k, off) := r.value;
      ReadFound(ring, pos, count, k, off);
      var n := Min(|ring[k]| - off, count);
      FlatSlice(ring, k, off, n);
    } else {
      ReadNothing(ring, pos, count);
    }
    SuffixAdvances(Flat(ring), pos, ReadData(ring, pos, count));
  }

  lemma ReadFound(ring: seq<seq<byte>>, pos: nat, count: nat, k: nat, off: nat)
    requires Locate(SizesOf(ring), pos) == Some((k, off))
    ensures k < |ring| && off < |ring[k]|
    ensures ReadData(ring, pos, count) == ring[k][off..off + Min(|ring[k]| - off, count)]
  {
    LocateCorrect(SizesOf(ring), pos);
  }

  lemma ReadNothing(ring: seq<seq<byte>>, pos: nat, count: nat)
    requires pos >= Total(SizesOf(ring))
    ensures ReadData(ring, pos, count) == []
  {
    LocateCorrect(SizesOf(ring), pos);
  }

  lemma SuffixAdvances(content: seq<byte>, pos: nat, d: seq<byte>)
    requires SliceAt(content, pos, d)
    ensures Suffix(content, pos) == d + Suffix(content, pos + |d|)
  {
    if d != [] {
      assert content[pos..] == content[pos..pos + |d|] + content[pos + |d|..];
    }
  }

  /** A seek to a byte of a live command selects exactly that byte of the flat content. */
  lemma SeekSelectsByte(ring: seq<seq<byte>>, cmd: nat, off: nat)
    requires cmd < |ring| && off < |ring[cmd]|
    ensures var t := SeekTarget(ring, cmd, off);
            t.Some? && t.value < |Flat(ring)| && Flat(ring)[t.value] == ring[cmd][off]
            && Suffix(Flat(ring), t.value) == ring[cmd][off..] + Flat(ring[cmd + 1..])
  {
    FlatSlice(ring, cmd, off, 1);
    var t := PrefixSum(SizesOf(ring), cmd) + off;
    assert Flat(ring)[t] == Flat(ring)[t..t + 1][0] == ring[cmd][off..off + 1][0];
    FlatSplit(ring, cmd);
    assert ring[cmd..][1..] == ring[cmd + 1..];
  }

  /** Committing a line to a full ring slides the content by the size of the oldest entry; committing
      to any other ring only appends. */
  lemma SlidingWindow(ring: seq<seq<byte>>, line: seq<byte>)
    requires |ring| <= CAPACITY
    ensures |Flat(Dropped(ring))| <= |Flat(ring)|
    ensures Flat(Push(ring, line)) == Flat(ring)[|Flat(Dropped(ring))|..] + line
  {
    if |ring| == CAPACITY {
      FlatSnoc(ring[1..], line);
      assert Dropped(ring)[1..] == [];
    } else {
      FlatSnoc(ring, line);
    }
  }

  /** The entries that leave the window while more is committed. */
  function Slid<T>(h: seq<T>, more: seq<T>): seq<T>
  {
    (h + more)[|h| - |Window(h)|..|h + more| - |Window(h + more)|]
  }

  lemma FlatDrop<T>(h: seq<seq<T>>, a: nat)
    requires a <= |h|
    ensures Flat(h) == Flat(h[..a]) + Flat(h[a..])
  {
    FlatConcat(h[..a], h[a..]);
    assert h == h[..a] + h[a..];
  }

  lemma SlidContent(h: seq<seq<byte>>, more: seq<seq<byte>>)
    ensures Flat(Window(h)) + Flat(more) == Flat(Slid(h, more)) + Flat(Window(h + more))
  {
    var live := Window(h) + more;
    assert live == (h + more)[|h| - |Window(h)|..];
    FlatConcat(Window(h), more);
    FlatDrop(live, |Slid(h, more)|);
    assert live[..|Slid(h, more)|] == Slid(h, more);
    assert live[|Slid(h, more)|..] == Window(h + more);
  }

  /** Through any number of commits, a byte that is still in the window is found at its old position
      less the sizes of the entries dropped since. */
  lemma SurvivorsSlide(h: seq<seq<byte>>, more: seq<seq<byte>>, pos: nat)
    requires |Flat(Slid(h, more))| <= pos < |Flat(Window(h))|
    ensures var p := pos - |Flat(Slid(h, more))|;
            p < |Flat(Window(h + more))| && Flat(Window(h + more))[p] == Flat(Window(h))[pos]
  {
    SlidContent(h, more);
    var a, b, c, d := Flat(Window(h)), Flat(more), Flat(Slid(h, more)), Flat(Window(h + more));
    assert a[pos] == (a + b)[pos] == (c + d)[pos] == d[pos - |c|];
  }
}
