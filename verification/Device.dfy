/** main.c: the character device. Blocks live on the heap and are written in place; the ring and the
    staging pointer refer to them; kfree is a ghost update. */
module Devices {
  import opened Prelude
  import opened Positions
  import opened Rings
  import opened CircularBuffers
  import opened Blocks
  import opened Stream
  import opened Content

  class Device {
    const buff: CircularBuffer
    // struct aesd_entry_stage entry
    var buffPtr: array?<byte>
    var size: nat
    var endIdx: nat
    var lseekPos: loff
    // Whether the calling thread holds each mutex.
    var entryMutex: bool
    var buffMutex: bool

    // The contents of the device, whatever blocks hold them.
    ghost var view: State
    ghost var issued: set<Block>
    ghost var freed: set<Block>

    ghost predicate Valid()
      reads `buffPtr, `size, `endIdx, `view, `issued, `freed
      reads buff, buff.entry, issued
    {
      && buff.Valid()
      && Sane(buff.State(), buffPtr, issued, freed)
      && size <= KMALLOC_MAX_SIZE
      && endIdx <= KMALLOC_MAX_SIZE
      && (buffPtr == null ==> endIdx == 0)
      && (buffPtr != null ==> endIdx <= buffPtr.Length)
      && view.staged == Staged() && |view.staged| == endIdx
      && Readable(buff.Queue())
      && (forall k :: 0 <= k < |buff.Queue()| ==> buff.Queue()[k].buffptr in issued)
      && view.ring == Contents(buff.Queue())
    }

    /** The staging pointer is set exactly while bytes are staged. */
    ghost predicate Settled()
      reads `buffPtr, `endIdx
    {
      buffPtr != null <==> endIdx > 0
    }

    /** Between calls: no mutex is held. */
    ghost predicate Ready()
      reads this, buff, buff.entry, issued
    {
      Valid() && Settled() && !entryMutex && !buffMutex
    }

    ghost function Staged(): seq<byte>
      reads `buffPtr, `endIdx, buffPtr
      requires buffPtr != null ==> endIdx <= buffPtr.Length
    {
      if buffPtr == null then [] else buffPtr[..endIdx]
    }

    /** Entry k of the queue: its block holds the bytes of entry k of the view. */
    lemma EntryBytes(k: nat)
      requires Valid() && k < |view.ring|
      ensures buff.Valid() && |buff.Queue()| == |view.ring|
      ensures var e := buff.Queue()[k];
              e.buffptr != null && e.size <= e.buffptr.Length && view.ring[k] == e.buffptr[..e.size]
              && |view.ring[k]| == e.size <= KMALLOC_MAX_SIZE
    {
      QueueBlocks(buff.State(), buffPtr, issued, freed);
      ContentsAt(buff.Queue(), k);
    }

    lemma StageIssued()
      requires Valid()
      ensures buffPtr != null ==> buffPtr in issued
    {
    }

    lemma StageLength()
      requires Valid()
      ensures |view.staged| == endIdx
    {
    }

    lemma ReadyStage()
      requires Ready()
      ensures buffPtr != null ==> buffPtr in issued
    {
    }

    /** The total content, and so every offset into it, stays far below INT_MAX: no sum on the read and
        seek paths wraps, and the narrowing to int loses nothing. */
    lemma ContentBounded(k: nat)
      requires Valid()
      ensures buff.Valid() && |buff.Queue()| == |view.ring| <= CAPACITY
      ensures buff.Sizes() == SizesOf(view.ring)
      ensures Total(buff.Sizes()) == |Flat(view.ring)| <= CAPACITY * KMALLOC_MAX_SIZE < 0x8000_0000
      ensures k <= |view.ring| ==> PrefixSum(buff.Sizes(), k) <= |Flat(view.ring)|
    {
      forall k | 0 <= k < |view.ring|
        ensures buff.Sizes()[k] == |view.ring[k]| <= KMALLOC_MAX_SIZE
      {
        EntryBytes(k);
      }
      RingBounded(view.ring, Min(k, |view.ring|));
      FlatLength(view.ring);
    }

    /** The module's zeroed device. */
    constructor Init()
      ensures Valid() && Settled() && view == INIT
      ensures lseekPos == 0 && !entryMutex && !buffMutex
      ensures issued == {} && freed == {}
      ensures fresh(buff) && fresh(buff.entry)
    {
      buff := new CircularBuffer.Init();
      buffPtr, size, endIdx, lseekPos := null, 0, 0, 0;
      entryMutex, buffMutex := false, false;
      view, issued, freed := INIT, {}, {};
      new;
    }

    static lemma BlockSlice(p: Block, size: nat, off: nat, n: nat)
      requires off + n <= size <= p.Length
      ensures p[off..off + n] == p[..size][off..off + n]
    {
    }

    method Kmalloc(ok: bool) returns (p: array?<byte>)
      modifies this`issued
      ensures ok ==> p != null && fresh(p) && p.Length == KMALLOC_MAX_SIZE && issued == old(issued) + {p}
      ensures !ok ==> p == null && issued == old(issued)
    {
      if ok {
        p := new byte[KMALLOC_MAX_SIZE];
        issued := issued + {p};
      } else {
        p := null;
      }
    }

    /** A block is freed at most once, and only if it was issued. */
    method Kfree(p: array?<byte>)
      requires p != null ==> p in issued && p !in freed
      modifies this`freed
      ensures freed == old(freed) + Freeable(p)
    {
      if p != null { freed := freed + {p}; }
    }

    /** Takes a staging block if there is none. */
    method TakeBlock(blockFree: bool)
      requires Valid()
      modifies this`buffPtr, this`issued
      ensures Valid()
      ensures old(buffPtr) != null ==> buffPtr == old(buffPtr) && issued == old(issued)
      ensures old(buffPtr) == null && !blockFree ==> buffPtr == null && issued == old(issued)
      ensures old(buffPtr) == null && blockFree ==>
                buffPtr != null && fresh(buffPtr) && issued == old(issued) + {buffPtr}
    {
      if buffPtr == null {
        ghost var before := issued;
        buffPtr := Kmalloc(blockFree);
        if buffPtr != null { StageFresh(buff.State().slots, buffPtr, before, freed); }
      }
    }

    /** The copy loop of StorePartial. */
    method CopyIn(buf: seq<byte>, base: nat, count: nat)
      requires base + count <= |buf|
      requires buffPtr != null && endIdx + count <= buffPtr.Length
      modifies buffPtr
      ensures buffPtr[..endIdx] == old(buffPtr[..endIdx])
      ensures buffPtr[endIdx..endIdx + count] == buf[base..base + count]
    {
      for i := 0 to count
        invariant buffPtr[..endIdx] == old(buffPtr[..endIdx])
        invariant buffPtr[endIdx..endIdx + i] == buf[base..base + i]
      {
        buffPtr[endIdx + i] := buf[base + i];
        assert buffPtr[endIdx..endIdx + i + 1] == buffPtr[endIdx..endIdx + i] + [buf[base + i]];
      }
    }

    /** The bytes go into the staging block, which no ring entry shares. */
    method Append(buf: seq<byte>, base: nat, count: nat)
      requires Valid() && buffPtr != null && base + count <= |buf| && endIdx + count <= size
      modifies this`endIdx, this`view, buffPtr
      ensures Valid() && endIdx == old(endIdx) + count
      ensures view == old(view).(staged := old(view).staged + buf[base..base + count])
    {
      hide Sane, Contents, Ring<Entry>.Queue;
      QueueBlocks(buff.State(), buffPtr, issued, freed);
      CopyIn(buf, base, count);
      assert buffPtr[..endIdx + count] == buffPtr[..endIdx] + buffPtr[endIdx..endIdx + count];
      endIdx := endIdx + count;
      view := view.(staged := Staged());
    }

    /** Appends buf[base..base+count] to the staged bytes, taking a block first if there is none. */
    method StorePartial(buf: seq<byte>, base: nat, count: nat, blockFree: bool) returns (r: Ret)
      requires Valid() && base + count <= |buf| && endIdx + count < SIZE_T_RANGE
      modifies this`buffPtr, this`endIdx, this`issued, this`view
      modifies if buffPtr == null then {} else {buffPtr}
      ensures Valid()
      ensures r == if count > 0 && ((old(buffPtr) == null && !blockFree) || old(endIdx) + count > size)
                   then Err(ENOMEM) else Ok(0)
      ensures view == if r.Err? then old(view)
                        else old(view).(staged := old(view).staged + buf[base..base + count])
      ensures buffPtr == old(buffPtr) || (old(buffPtr) == null && fresh(buffPtr) && count > 0 && blockFree)
      ensures fresh(issued - old(issued))
      ensures count > 0 && blockFree ==> buffPtr != null
      ensures r.Ok? && old(Settled()) ==> Settled()
    {
      hide Sane, Contents, Ring<Entry>.Queue, Readable;
      if count == 0 {
        assert buf[base..base + count] == [];
        return Ok(0);
      }
      TakeBlock(blockFree);
      if buffPtr == null || ToSizeT(endIdx + count) > size {
        return Err(ENOMEM);
      }
      Append(buf, base, count);
      r := Ok(0);
    }

    /** What inserting the staged entry will do, computed before it is done. */
    lemma CommitPlan()
      requires Valid() && buffPtr != null
      ensures var r := buff.State().Add(Entry(buffPtr, endIdx));
              var drop := if buff.full then buff.Queue()[0].buffptr else null;
              && Sane(r, null, issued, freed + Freeable(drop))
              && (drop != null ==> Holds(drop, issued, freed))
              && Readable(r.Queue()) && (forall k :: 0 <= k < |r.Queue()| ==> r.Queue()[k].buffptr in issued)
              && Contents(r.Queue()) == Commit(view).ring
    {
      QueueBlocks(buff.State(), buffPtr, issued, freed);
      CommitTransfersBlock(buff.State(), buffPtr, endIdx, issued, freed);
      var drop := if buff.full then buff.Queue()[0].buffptr else null;
      QueueBlocks(buff.State().Add(Entry(buffPtr, endIdx)), null, issued, freed + Freeable(drop));
      ContentsPush(buff.Queue(), Entry(buffPtr, endIdx));
    }

    /** The body of FlushPartial under the mutex. */
    method MoveToRing()
      requires Valid() && buffPtr != null
      modifies this`buffPtr, this`endIdx, this`view, this`freed, buff, buff.entry
      ensures Valid() && buffPtr == null
      ensures view == Commit(old(view))
      ensures freed == old(freed) + Freeable(if old(buff.full) then old(buff.Queue())[0].buffptr else null)
    {
      hide Sane, Push, Dropped, Ring<Entry>.Queue, Ring<Entry>.Add;
      CommitPlan();
      view := Commit(view);
      var newEntry := Entry(buffPtr, endIdx);
      var freePtr := buff.AddEntry(newEntry);
      Kfree(freePtr);
      buffPtr := null;
      endIdx := 0;
    }

    /** Moves the staged bytes into the ring, with their block, and frees the block of the entry dropped
        for them. Where nothing is staged the mutex is taken and not given back. */
    method FlushPartial(lock: bool) returns (r: Ret)
      requires Valid() && !buffMutex
      modifies this`buffPtr, this`endIdx, this`buffMutex, this`view, this`freed, buff, buff.entry
      ensures Valid()
      ensures buffMutex <==> lock && old(buffPtr) == null
      ensures r == if lock && old(buffPtr) != null then Ok(0) else Err(ENOMEM)
      ensures view == if r.Ok? then Commit(old(view)) else old(view)
      ensures buffPtr == if r.Ok? then null else old(buffPtr)
      ensures freed == old(freed) +
                Freeable(if r.Ok? && old(buff.full) then old(buff.Queue())[0].buffptr else null)
    {
      if !lock {
        return Err(ENOMEM);
      }
      buffMutex := true;
      if buffPtr == null {
        return Err(ENOMEM);
      }
      MoveToRing();
      buffMutex := false;
      r := Ok(0);
    }

    /** The newline branch of aesd_write's loop: the line buf[base..next] is stored and, if the mutex
        can be had, committed. FlushPartial's result is ignored. */
    method AcceptLine(buf: seq<byte>, base: nat, next: nat, ghost s: State, env: Env) returns (r: Ret)
      requires Accepting(buf, base, s, env) && base < next <= |buf|
      requires NEWLINE !in buf[base..next - 1] && buf[next - 1] == NEWLINE
      modifies this`buffMutex, this`buffPtr, this`endIdx, this`view, this`issued, this`freed, buff, buff.entry
      modifies if buffPtr == null then {} else {buffPtr}
      ensures r.Ok? ==> Accepting(buf, next, s, env)
      ensures r.Err? ==> Accepting(buf, base, s, env) && Stalls(s, buf, env, base)
      ensures buffPtr == null || buffPtr == old(buffPtr) || fresh(buffPtr)
      ensures fresh(issued - old(issued))
    {
      hide Valid, Commit, FeedAll;
      StageLength();
      r := StorePartial(buf, base, next - base, env.alloc[base]);
      StageLength();
      if r.Ok? {
        var ignored := FlushPartial(env.flush[next - 1]);
        FedLine(s, buf, env, base, next);
        NoStallInside(s, buf, env, base, next);
        StageLength();
      }
    }

    /** What follows the last newline is stored without a commit. StorePartial's result is ignored. */
    method AcceptRest(buf: seq<byte>, base: nat, ghost s: State, env: Env)
      requires Accepting(buf, base, s, env) && NEWLINE !in buf[base..]
      modifies this`buffPtr, this`endIdx, this`view, this`issued
      modifies if buffPtr == null then {} else {buffPtr}
      ensures Accepting(buf, Accepted(s, buf, env), s, env)
      ensures NEWLINE !in buf[Accepted(s, buf, env)..]
      ensures buffPtr == null || buffPtr == old(buffPtr) || fresh(buffPtr)
      ensures fresh(issued - old(issued))
    {
      hide Owned, Filled, Contents, Commit, FeedAll;
      var r := Ok(0);
      if base < |buf| {
        r := StorePartial(buf, base, |buf| - base, env.alloc[base]);
      }
      if r.Ok? {
        assert buf[base..|buf|] == buf[base..];
        FedPlain(s, buf, env, base, |buf|);
        NoStallInside(s, buf, env, base, |buf|);
        AcceptedIs(s, buf, env, |buf|);
      } else {
        AcceptedIs(s, buf, env, base);
      }
    }

    /** A write that was not refused has accepted exactly buf[..n] so far, starting from state s. */
    ghost predicate Accepting(buf: seq<byte>, n: nat, s: State, env: Env)
      reads this, buff, buff.entry, issued
    {
      && Valid() && Settled() && entryMutex && !buffMutex && size == KMALLOC_MAX_SIZE
      && env.Covers(buf) && env.lock && Fits(s, buf) && n <= |buf|
      && view == Fed(s, buf, env, n) && NoStallBefore(s, buf, env, n)
      && endIdx + (|buf| - n) <= KMALLOC_MAX_SIZE
    }

    /** The scan of aesd_write, with entryMutex held and the request known to fit. */
    method AcceptAll(buf: seq<byte>, env: Env) returns (r: Ret)
      requires Accepting(buf, 0, view, env)
      modifies this`buffMutex, this`buffPtr, this`endIdx, this`view, this`issued, this`freed, buff, buff.entry
      modifies if buffPtr == null then {} else {buffPtr}
      ensures Accepting(buf, Accepted(old(view), buf, env), old(view), env)
      ensures r == WriteResult(old(view), buf, env)
      ensures buffPtr == null || buffPtr == old(buffPtr) || fresh(buffPtr)
      ensures fresh(issued - old(issued))
    {
      hide Accepting;
      ghost var s := view;
      var inputIdx, inputBaseIdx := 0, 0;
      while inputBaseIdx + inputIdx < |buf|
        invariant 0 <= inputBaseIdx <= inputBaseIdx + inputIdx <= |buf|
        invariant NEWLINE !in buf[inputBaseIdx..inputBaseIdx + inputIdx]
        invariant Accepting(buf, inputBaseIdx, s, env)
        invariant buffPtr == null || buffPtr == old(buffPtr) || fresh(buffPtr)
        invariant fresh(issued - old(issued))
      {
        inputIdx := inputIdx + 1;
        if buf[inputBaseIdx + inputIdx - 1] == NEWLINE {
          var stored := AcceptLine(buf, inputBaseIdx, inputBaseIdx + inputIdx, s, env);
          if stored.Err? {
            StalledAt(buf, inputBaseIdx, s, env);
            assert buf[inputBaseIdx..][inputIdx - 1] == NEWLINE;
            return Err(ENOMEM);
          }
          inputBaseIdx := inputBaseIdx + inputIdx;
          inputIdx := 0;
        }
      }
      StalledAt(buf, inputBaseIdx, s, env);
      AcceptRest(buf, inputBaseIdx, s, env);
      r := Ok(|buf|);
    }

    lemma StalledAt(buf: seq<byte>, n: nat, s: State, env: Env)
      requires Accepting(buf, n, s, env)
      ensures env.Covers(buf) && env.lock && Fits(s, buf)
      ensures n < |buf| && Stalls(s, buf, env, n) ==> Accepted(s, buf, env) == n
    {
      if n < |buf| && Stalls(s, buf, env, n) { AcceptedIs(s, buf, env, n); }
    }

    /** Stores and commits every complete line of buf and stages what is left over, byte for byte what
        the automaton does, under whatever locks and blocks env grants. */
    method Write(buf: seq<byte>, env: Env) returns (r: Ret)
      requires Valid() && Settled() && !entryMutex && !buffMutex && env.Covers(buf)
      modifies this`size, this`entryMutex, this`buffMutex, this`buffPtr, this`endIdx
      modifies this`view, this`issued, this`freed, buff, buff.entry
      modifies if buffPtr == null then {} else {buffPtr}
      ensures Valid() && Settled() && !entryMutex && !buffMutex && size == KMALLOC_MAX_SIZE
      ensures view == AfterWrite(old(view), buf, env)
      ensures r == WriteResult(old(view), buf, env)
      ensures !env.lock ==> r == Err(ERESTARTSYS) && view == old(view)
      ensures env.lock && |old(view).staged| + |buf| > KMALLOC_MAX_SIZE ==> r == Err(ENOMEM) && view == old(view)
      ensures buffPtr == null || buffPtr == old(buffPtr) || fresh(buffPtr)
      ensures fresh(issued - old(issued))
    {
      hide Owned, Filled, Contents, Readable;
      FedNone(view, buf, env);
      size := KMALLOC_MAX_SIZE;
      if !env.lock {
        return Err(ERESTARTSYS);
      }
      entryMutex := true;
      if |buf| > size || ToSizeT(endIdx + |buf|) > size {
        r := Err(ENOMEM);
      } else {
        r := AcceptAll(buf, env);
      }
      entryMutex := false;
    }

    /** The lookup of a read and the copy to the caller: the bytes at a position, up to the end of the entry
        that holds it, less what copy_to_user could not copy. */
    method Deliver(actualPos: nat, count: nat, fault: nat) returns (data: seq<byte>)
      requires Valid()
      ensures data == Copied(ReadData(view.ring, actualPos, count), fault)
      ensures data <= ReadData(view.ring, actualPos, count)
      ensures var whole := |ReadData(view.ring, actualPos, count)|; |data| == whole - Min(fault, whole)
    {
      hide Valid, Contents, ReadData, Flat, Locate;
      ContentBounded(0);
      var entry, entryOffset, k := buff.FindEntryOffsetForFpos(actualPos, 0);
      if entry == None {
        ReadNothing(view.ring, actualPos, count);
        return [];
      }
      var e := buff.entry[entry.value];
      EntryBytes(k);
      ReadFound(view.ring, actualPos, count, k, entryOffset);
      var entrySize := e.size - entryOffset;
      var sizeToRead := if entrySize < count then entrySize else count;
      var notCopied := Min(fault, sizeToRead);
      data := e.buffptr[entryOffset..entryOffset + (sizeToRead - notCopied)];
      TakeOfSlice(view.ring[k], entryOffset, sizeToRead, sizeToRead - notCopied);
      BlockSlice(e.buffptr, e.size, entryOffset, sizeToRead - notCopied);
    }

    /** One read: what Deliver delivers at the effective position. Nothing but the file position changes. */
    method Read(count: nat, fPos: loff, lock: bool, fault: nat)
      returns (r: Ret, data: seq<byte>, newPos: loff)
      requires Valid() && !buffMutex
      modifies this`buffMutex
      ensures Valid() && !buffMutex
      ensures !lock ==> r == Err(ERESTARTSYS) && data == [] && newPos == fPos
      ensures lock ==>
                var whole := ReadData(view.ring, ActualPos(fPos, lseekPos), count);
                && data == Copied(whole, fault) && data <= whole && |data| == |whole| - Min(fault, |whole|)
                && r == Ok(|data|) && newPos == ToLoff(fPos + |data|)
    {
      hide Valid, ReadData, ActualPos, ToLoff;
      if !lock {
        return Err(ERESTARTSYS), [], fPos;
      }
      buffMutex := true;
      data := Deliver(ActualPos(fPos, lseekPos), count, fault);
      r := Ok(|data|);
      newPos := ToLoff(fPos + |data|);
      buffMutex := false;
    }

    /** The seek command: accepted exactly where SeekTarget says, and then lseekPos is that position;
        rejected, it changes nothing. Neither conversion between int and the seek fields loses anything. */
    method Ioctl(seekTo: bool, copied: bool, lock: bool, writeCmd: nat, writeCmdOffset: nat) returns (r: Ret)
      requires Valid() && !buffMutex
      requires writeCmd < 0x1_0000_0000 && writeCmdOffset < 0x1_0000_0000
      modifies this`buffMutex, this`lseekPos
      ensures Valid() && !buffMutex
      ensures var target := SeekTarget(view.ring, writeCmd, writeCmdOffset);
              && r == (if !seekTo then Err(ENOTTY) else if !copied then Err(EFAULT)
                       else if !lock then Err(ERESTARTSYS) else if target.None? then Err(EINVAL) else Ok(0))
              && lseekPos == if r.Ok? then target.value else old(lseekPos)
      ensures seekTo && copied && lock ==>
                && (r == Ok(0) || r == Err(EINVAL))
                && (r == Ok(0) <==>
                      && writeCmd <= |view.ring|
                      && writeCmdOffset <= if writeCmd < |view.ring| then |view.ring[writeCmd]|
                                           else if |view.ring| == CAPACITY then |view.ring[0]| else 0)
                && (r == Ok(0) ==> lseekPos == |Flat(view.ring[..writeCmd])| + writeCmdOffset)
                && (r == Err(EINVAL) ==> lseekPos == old(lseekPos))
    {
      hide Valid, SeekTarget, Flat;
      ContentBounded(0);
      SeekTargetIs(view.ring, writeCmd, writeCmdOffset);
      if !seekTo {
        return Err(ENOTTY);
      }
      if !copied {
        return Err(EFAULT);
      }
      if !lock {
        return Err(ERESTARTSYS);
      }
      buffMutex := true;
      var newPos := FindTarget(writeCmd, writeCmdOffset);
      if newPos == None {
        r := Err(EINVAL);
      } else {
        lseekPos := newPos.value;
        r := Ok(0);
      }
      buffMutex := false;
    }

    /** The two lookups of the seek command, and the sum in 32 bits. */
    method FindTarget(writeCmd: nat, writeCmdOffset: nat) returns (newPos: Option<nat>)
      requires Valid() && writeCmd < 0x1_0000_0000 && writeCmdOffset < 0x1_0000_0000
      ensures newPos == SeekTarget(view.ring, writeCmd, writeCmdOffset)
      ensures newPos.Some? ==> newPos.value < 0x1_0000_0000
    {
      hide Valid;
      ContentBounded(if writeCmd <= |view.ring| then writeCmd else 0);
      var basePos := buff.FindFposForVirtualEntryOffset(writeCmd);
      if basePos < 0 {
        return None;
      }
      var slot := buff.FindEntryAtPosition(writeCmd);
      SlotSizeMatches(writeCmd);
      if buff.entry[slot].size < writeCmdOffset {
        return None;
      }
      newPos := Some(ToU32(ToU32(basePos) + writeCmdOffset));
    }

    /** The slot an accepted command number names has the size SlotSize says, within one block. */
    lemma SlotSizeMatches(cmd: nat)
      requires Valid() && cmd <= |view.ring|
      ensures buff.Valid() && Wrap(ToU8(cmd)) < |buff.State().Rotated()|
      ensures buff.State().Rotated()[Wrap(ToU8(cmd))].size == SlotSize(view.ring, cmd) <= KMALLOC_MAX_SIZE
    {
      if |view.ring| > 0 { EntryBytes(if cmd < |view.ring| then cmd else 0); }
      ContentBounded(0);
      BlankTail(buff.State(), Wrap(cmd), BLANK);
    }

    method Llseek(off: loff, whence: Whence, lock: bool) returns (r: Ret)
      requires Valid() && !buffMutex
      modifies this`buffMutex, this`lseekPos
      ensures Valid() && !buffMutex
      ensures !lock ==> r == Err(ERESTARTSYS) && lseekPos == old(lseekPos)
      ensures lock ==> r == Ok(lseekPos) && lseekPos == LlseekTarget(|Flat(view.ring)|, old(lseekPos), off, whence)
      ensures lock && whence == SEEK_SET ==> lseekPos == off
      ensures lock && whence == SEEK_CUR ==>
                var sum := old(lseekPos) + off;
                && (-0x8000_0000_0000_0000 <= sum < 0x8000_0000_0000_0000 ==> lseekPos == sum)
                && (sum >= 0x8000_0000_0000_0000 ==> lseekPos == sum - SIZE_T_RANGE)
                && (sum < -0x8000_0000_0000_0000 ==> lseekPos == sum + SIZE_T_RANGE)
      ensures lock && whence == SEEK_END ==> lseekPos == |Flat(view.ring)|
      ensures lock && whence == SEEK_OTHER ==> lseekPos == old(lseekPos)
    {
      hide Valid;
      ContentBounded(0);
      LlseekTargetIs(|Flat(view.ring)|, lseekPos, off);
      if !lock {
        return Err(ERESTARTSYS);
      }
      buffMutex := true;
      match whence {
        case SEEK_SET =>
          lseekPos := off;
        case SEEK_CUR =>
          lseekPos := ToLoff(lseekPos + off);
        case SEEK_END =>
          lseekPos := buff.GetSize();
        case SEEK_OTHER =>
      }
      r := Ok(lseekPos);
      buffMutex := false;
    }

    /** Closing any file resets the position shared by all of them, without taking a lock. */
    method Release()
      requires Valid()
      modifies this`lseekPos
      ensures Valid() && lseekPos == 0
    {
      lseekPos := 0;
    }

    /** Unloading frees every block still in use, each exactly once, and leaks none. */
    method Cleanup()
      requires Valid()
      modifies this`freed
      ensures freed == issued
    {
      hide Ring<Entry>.Valid, Filled, Contents, Readable;
      for i := 0 to CAPACITY
        invariant freed <= issued
        invariant forall k :: 0 <= k < i && buff.entry[k].buffptr != null ==> buff.entry[k].buffptr in freed
        invariant forall k :: i <= k < CAPACITY && buff.entry[k].buffptr != null ==>
                    Holds(buff.entry[k].buffptr, issued, freed)
        invariant buffPtr != null ==> Holds(buffPtr, issued, freed)
        invariant old(freed) <= freed
      {
        Kfree(buff.entry[i].buffptr);
      }
      Kfree(buffPtr);
      assert forall p <- issued :: InSlot(buff.State().slots, p) ==> p in freed;
    }
  }
}
