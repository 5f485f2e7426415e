/** What one step of one thread may change. */
module ProtocolSteps {
  import opened Prelude
  import opened Rings
  import opened Content
  import opened Runs
  import opened Protocol

  lemma DoneStays(g: System, t: Tid, c: Choice)
    requires t < |g.threads| && IsDone(g.threads[t])
    ensures Next(g, t, c) == None
  {
  }

  predicate IsWriting(th: Thread) { th.WriteStart? || HoldsEntry(th) }

  predicate IsReading(th: Thread) { th.ReadStart? || th.ReadPos? || th.ReadScan? || th.ReadUnlock? }

  predicate IsSeeking(th: Thread) { th.SeekStart? || th.SeekScan? || th.SeekUnlock? }

  predicate IsLseeking(th: Thread) { th.LseekStart? || th.LseekScan? || th.LseekRead? || th.LseekUnlock? }

  /** Where a thread may get from th in one step: it stays in its call, or the call returns. */
  predicate Follows(th: Thread, th': Thread)
  {
    && (IsWriting(th) ==>
          || (HoldsEntry(th') && th'.buf == th.buf)
          || (th.WriteUnlock? && th'.WriteDone? && th'.ret == th.ret)
          || (th.WriteStart? && th'.Finished?))
    && (IsReading(th) ==> (IsReading(th') && !th'.ReadStart?) || th'.ReadDone? || th'.Finished?)
    && (IsSeeking(th) ==> (IsSeeking(th') && !th'.SeekStart?) || th'.SeekDone? || th'.Finished?)
    && (IsLseeking(th) ==> (IsLseeking(th') && !th'.LseekStart?) || th'.LseekDone? || th'.Finished?)
    && (th.ReleaseStart? ==> th'.Finished?)
    && !IsDone(th)
  }

  /** buffMutex is taken when it is free, or given back, or stays with whoever has it. */
  predicate BuffMoves(g: System, t: Tid, h: System)
    requires t < |g.threads| == |h.threads|
  {
    var (had, has) := (HoldsBuff(g.threads[t]), HoldsBuff(h.threads[t]));
    && h.buffMutex == (if has && !had then Some(t) else if had && !has then None else g.buffMutex)
    && (has && !had ==> g.buffMutex == None)
  }

  /** What a step of thread t leaves alone, unless it ends a commit or a write. */
  ghost predicate Modest(g: System, t: Tid, h: System)
    requires t < |g.threads|
  {
    && |h.threads| == |g.threads| && h.threads == g.threads[t := h.threads[t]]
    && Follows(g.threads[t], h.threads[t])
    && (if g.threads[t].FixOut? then h.commits == g.commits + [g.staged] else h.commits == g.commits)
    && (if g.threads[t].WriteUnlock? then h.calls == g.calls + [Call(g.threads[t].buf, g.env)] else h.calls == g.calls)
    && (h.threads[t].WriteDone? ==> h.threads[t].at == |g.calls|)
    && (!IsWriting(g.threads[t]) ==>
          && h.ring == g.ring && h.block == g.block && h.staged == g.staged && h.evicted == g.evicted
          && h.env == g.env && h.entryMutex == g.entryMutex && h.acquired == g.acquired
          && BuffMoves(g, t, h))
    && (!HoldsBuff(g.threads[t]) ==> h.lseekPos == g.lseekPos || h.lseekPos == 0)
  }

  lemma ScanModest(g: System, t: Tid, c: Choice, h: System)
    requires t < |g.threads| && Next(g, t, c) == Some(h) && g.threads[t].Scan?
    ensures Modest(g, t, h)
  {
    hide MissedAt;
  }

  lemma StartModest(g: System, t: Tid, c: Choice, h: System)
    requires t < |g.threads| && Next(g, t, c) == Some(h)
    requires g.threads[t].WriteStart? || g.threads[t].SizeCheck?
    ensures Modest(g, t, h)
  {
    hide Untouched;
  }

  lemma InsertModest(g: System, t: Tid, c: Choice, h: System)
    requires t < |g.threads| && Next(g, t, c) == Some(h)
    requires g.threads[t].WantFlush? || g.threads[t].PutSlot? || g.threads[t].MoveIn?
    ensures Modest(g, t, h)
  {
    hide Ring<seq<byte>>.Advance;
  }

  lemma CommitModest(g: System, t: Tid, c: Choice, h: System)
    requires t < |g.threads| && Next(g, t, c) == Some(h)
    requires var th := g.threads[t];
             th.FixOut? || th.DropBlock? || th.ClearPtr? || th.ClearEnd? || th.FlushUnlock? || th.WriteUnlock?
    ensures Modest(g, t, h)
  {
    hide Ring<seq<byte>>.Settle, FlushedAt;
  }

  lemma ReadModest(g: System, t: Tid, c: Choice, h: System)
    requires t < |g.threads| && Next(g, t, c) == Some(h) && IsReading(g.threads[t])
    ensures Modest(g, t, h)
  {
    hide ActualPos, SlotAt;
  }

  lemma SeekModest(g: System, t: Tid, c: Choice, h: System)
    requires t < |g.threads| && Next(g, t, c) == Some(h) && g.threads[t].SeekScan?
    ensures Modest(g, t, h)
  {
    hide ToLoff, SeekRound;
  }

  lemma SeekEndsModest(g: System, t: Tid, c: Choice, h: System)
    requires t < |g.threads| && Next(g, t, c) == Some(h)
    requires g.threads[t].SeekStart? || g.threads[t].SeekUnlock? || g.threads[t].ReleaseStart?
    ensures Modest(g, t, h)
  {
  }

  lemma LseekModest(g: System, t: Tid, c: Choice, h: System)
    requires t < |g.threads| && Next(g, t, c) == Some(h) && IsLseeking(g.threads[t])
    ensures Modest(g, t, h)
  {
    hide LlseekTarget, SlotAt, Ring<seq<byte>>.Count;
  }

  /** One step moves one thread, commits only at the end of an insertion, and ends at most its own write. */
  lemma StepModest(g: System, t: Tid, c: Choice, h: System)
    requires t < |g.threads| && Next(g, t, c) == Some(h)
    ensures Modest(g, t, h)
  {
    hide Next, Modest;
    var th := g.threads[t];
    if th.Scan? {
      ScanModest(g, t, c, h);
    } else if th.WriteStart? || th.SizeCheck? {
      StartModest(g, t, c, h);
    } else if th.WantFlush? || th.PutSlot? || th.MoveIn? {
      InsertModest(g, t, c, h);
    } else if HoldsEntry(th) {
      CommitModest(g, t, c, h);
    } else if IsReading(th) {
      ReadModest(g, t, c, h);
    } else if IsDone(th) {
      DoneStays(g, t, c);
    } else if IsLseeking(th) {
      LseekModest(g, t, c, h);
    } else if th.SeekScan? {
      SeekModest(g, t, c, h);
    } else {
      SeekEndsModest(g, t, c, h);
    }
  }
}
