/** aesd-circular-buffer.c: the ten-slot ring of (pointer, size) entries, updated in place. */
module CircularBuffers {
  import opened Prelude
  import opened Positions
  import opened Rings

  datatype Entry = Entry(buffptr: array?<byte>, size: nat)

  const BLANK := Entry(null, 0)

  class CircularBuffer {
    const entry: array<Entry>
    var inOffs: nat
    var outOffs: nat
    var full: bool

    /** The fields as a value. */
    ghost function State(): Ring<Entry>
      reads this, entry
    {
      Ring(entry[..], inOffs, outOffs, full)
    }

    ghost predicate Valid()
      reads this, entry
    {
      entry.Length == CAPACITY && State().Valid(BLANK)
    }

    ghost function Queue(): seq<Entry>
      reads this, entry
      requires Valid()
    {
      State().Queue()
    }

    /** The entry sizes, oldest first. */
    ghost function Sizes(): (r: seq<nat>)
      reads this, entry
      requires Valid()
      ensures |r| == |Queue()|
    {
      SizesIn(Queue())
    }

    /** Zeroed memory is the empty queue. */
    constructor Init()
      ensures Valid() && fresh(entry)
      ensures Queue() == []
    {
      entry := new Entry[CAPACITY](_ => BLANK);
      inOffs, outOffs, full := 0, 0, false;
    }

    /** The slot voffset places after the oldest entry, all ten slots counting round and round. */
    method GetEntryAtVirtualOffset(voffset: nat) returns (slot: nat)
      requires Valid()
      ensures slot < CAPACITY && entry[slot] == State().Rotated()[Wrap(ToU8(voffset))]
    {
      VirtualOffset(State(), ToU8(voffset), BLANK);
      var offset := outOffs;
      offset := ToSizeT(offset + ToU8(voffset));
      slot := offset % CAPACITY;
    }

    method GetSize() returns (size: nat)
      requires Valid() && Total(Sizes()) < SIZE_T_RANGE
      ensures size == Total(Sizes())
    {
      size := 0;
      var numEntries := if full then CAPACITY else inOffs;
      for pos := 0 to numEntries
        invariant size == PrefixSum(SlotSizes(State()), pos)
      {
        NextSlotSum(State(), pos);
        var e := GetEntryAtVirtualOffset(pos);
        size := ToSizeT(size + entry[e].size);
      }
      SlotSums(State(), numEntries);
    }

    /** Accepts one more than the last entry: the end of the content is a position too. */
    method FindFposForVirtualEntryOffset(entryOffset: nat) returns (fpos: int)
      requires Valid() && Total(Sizes()) < SIZE_T_RANGE
      ensures entryOffset > |Queue()| ==> fpos == -1
      ensures entryOffset <= |Queue()| ==> fpos == ToInt(PrefixSum(Sizes(), entryOffset))
    {
      var numEntries := if full then CAPACITY else inOffs;
      if entryOffset > numEntries {
        return -1;
      }
      var sum := 0;
      for pos := 0 to entryOffset
        invariant sum == PrefixSum(SlotSizes(State()), pos)
      {
        NextSlotSum(State(), pos);
        var e := GetEntryAtVirtualOffset(pos);
        sum := ToSizeT(sum + entry[e].size);
      }
      SlotSums(State(), entryOffset);
      fpos := ToInt(sum);
    }

    method FindEntryAtPosition(pos: nat) returns (slot: nat)
      requires Valid()
      ensures slot < CAPACITY && entry[slot] == State().Rotated()[Wrap(ToU8(pos))]
    {
      slot := GetEntryAtVirtualOffset(pos);
    }

    /** The slot and offset of the byte at a flat position, or None exactly when the position is at or
        past the end. entryOffset keeps its value (the argument) when nothing is found. */
    method FindEntryOffsetForFpos(charOffset: nat, entryOffset: nat)
      returns (slot: Option<nat>, off: nat, ghost k: nat)
      requires Valid() && Total(Sizes()) < SIZE_T_RANGE
      ensures slot.None? <==> charOffset >= Total(Sizes())
      ensures slot.None? ==> off == entryOffset
      ensures slot.Some? ==>
                slot.value < CAPACITY && k < |Queue()| && entry[slot.value] == Queue()[k]
                && Locate(Sizes(), charOffset) == Some((k, off))
    {
      hide Locate, SizesIn, SlotSizes, Ring<Entry>.Queue, Ring<Entry>.Rotated;
      off, k := entryOffset, 0;
      ghost var r := State();
      ghost var sizes := SlotSizes(r);
      SlotSums(r, CAPACITY);
      if inOffs == outOffs && !full {
        return None, off, k;
      }
      var index: nat, totalPassed: nat := 0, 0;
      while totalPassed <= charOffset && index < CAPACITY
        invariant index <= CAPACITY
        invariant totalPassed == PrefixSum(sizes, index)
        invariant index > 0 ==> PrefixSum(sizes, index - 1) <= charOffset
      {
        NextSlotSum(r, index);
        var e := GetEntryAtVirtualOffset(index);
        totalPassed := ToSizeT(totalPassed + entry[e].size);
        index := ToU8(index + 1);
      }
      if totalPassed <= charOffset {
        return None, off, k;
      }
      k := index - 1;
      CrossingSlot(r, charOffset, k);
      var e := GetEntryAtVirtualOffset(index - 1);
      totalPassed := totalPassed - entry[e].size;
      off, slot := charOffset - totalPassed, Some(e);
    }

    /** Appends, dropping the oldest entry exactly when the ring was already full. The pointer returned
        for freeing is that entry's, and NULL when none was dropped. */
    method AddEntry(add: Entry) returns (free: array?<byte>)
      requires Valid()
      modifies this, entry
      ensures Valid()
      ensures Queue() == Push(old(Queue()), add)
      ensures State() == old(State()).Add(add)
      ensures free == if old(full) then old(Queue())[0].buffptr else null
    {
      AddRefinesPush(State(), add, BLANK);
      free := entry[inOffs].buffptr;
      entry[inOffs] := add;
      inOffs := ToU8(inOffs + 1);
      if inOffs == CAPACITY {
        inOffs := 0;
      }
      if full {
        outOffs := inOffs;
      } else {
        full := inOffs == outOffs;
      }
    }
  }

  ghost function SizesIn(q: seq<Entry>): (r: seq<nat>)
    ensures |r| == |q|
    ensures forall k :: 0 <= k < |q| ==> r[k] == q[k].size
  {
    seq(|q|, k requires 0 <= k < |q| => q[k].size)
  }

  /** The sizes of all ten slots in reading order, unused slots included. */
  ghost function SlotSizes(r: Ring<Entry>): (s: seq<nat>)
    requires r.outOffs <= |r.slots|
    ensures |s| == |r.slots|
  {
    SizesIn(r.Rotated())
  }

  /** Slots beyond the count are blank, so sums over all ten slots are sums over the entries. */
  lemma SlotsPadded(r: Ring<Entry>)
    requires r.Valid(BLANK)
    ensures Padded(SlotSizes(r), r.Count()) && SlotSizes(r)[..r.Count()] == SizesIn(r.Queue())
  {
    forall k | 0 <= k < CAPACITY
      ensures r.Rotated()[k] == if k < r.Count() then r.Queue()[k] else BLANK
    {
      BlankTail(r, k, BLANK);
    }
  }

  lemma SlotSums(r: Ring<Entry>, k: nat)
    requires r.Valid(BLANK) && k <= CAPACITY
    ensures PrefixSum(SlotSizes(r), k) == PrefixSum(SizesIn(r.Queue()), Min(k, r.Count()))
  {
    SlotsPadded(r);
    PaddedSums(SlotSizes(r), r.Count(), k);
  }

  /** Adding one more slot's size never wraps a size_t that the total fits. */
  lemma NextSlotSum(r: Ring<Entry>, k: nat)
    requires r.Valid(BLANK) && k < CAPACITY && Total(SizesIn(r.Queue())) < SIZE_T_RANGE
    ensures ToSizeT(PrefixSum(SlotSizes(r), k) + r.Rotated()[k].size) == PrefixSum(SlotSizes(r), k + 1)
  {
    SlotsPadded(r);
    PaddedSums(SlotSizes(r), r.Count(), k + 1);
  }

  /** The slot whose size carries the running sum past a position is a live entry holding it. */
  lemma CrossingSlot(r: Ring<Entry>, charOffset: nat, k: nat)
    requires r.Valid(BLANK) && k < CAPACITY
    requires PrefixSum(SlotSizes(r), k) <= charOffset < PrefixSum(SlotSizes(r), k + 1)
    ensures k < r.Count() && charOffset < Total(SizesIn(r.Queue())) && r.Rotated()[k] == r.Queue()[k]
    ensures r.Rotated()[k].size == PrefixSum(SlotSizes(r), k + 1) - PrefixSum(SlotSizes(r), k)
    ensures Locate(SizesIn(r.Queue()), charOffset) == Some((k, charOffset - PrefixSum(SlotSizes(r), k)))
  {
    SlotsPadded(r);
    CrossingPlace(SlotSizes(r), r.Count(), charOffset, k);
  }
}
