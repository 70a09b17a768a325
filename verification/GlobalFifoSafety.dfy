/** Every step of every thread keeps the FIFO's invariant. */
module GlobalFifoSafety {
  import opened Options
  import opened Bytes
  import opened GlobalFifo

  // ---------------------------------------------------------------- frames

  /** Only the thread that holds the mutex changes the buffer, the length or the log. */
  lemma OnlyHolderWrites(s: State, t: Tid, a: Action)
    requires MutexOk(s)
    ensures var r := Step(s, t, a);
      s.holder == Some(t) || (r.mem == s.mem && r.len == s.len && r.log == s.log)
  {
  }

  lemma OthersKeptByMove(s: State, t: Tid, u: Tid)
    requires t in s.threads && u in s.threads && u != t
    ensures var r := GoMove(s, t, s.threads[t]);
      && r.threads.Keys == s.threads.Keys
      && (r.threads[u] == s.threads[u]
          || (s.threads[t].pc.Wake? && r.threads[u] == s.threads[u].(run := Running)))
  {
  }

  lemma OthersKeptByWait(s: State, t: Tid, u: Tid)
    requires t in s.threads && u in s.threads && u != t
    ensures var r := GoWait(s, t, s.threads[t]); r.threads.Keys == s.threads.Keys && r.threads[u] == s.threads[u]
  {
  }

  lemma OthersKeptByOther(s: State, t: Tid, u: Tid)
    requires t in s.threads && u in s.threads && u != t
    ensures var r := GoOther(s, t, s.threads[t]); r.threads.Keys == s.threads.Keys && r.threads[u] == s.threads[u]
  {
  }

  /** A step changes no other thread, except that a wake-up makes sleepers runnable. */
  lemma OthersKept(s: State, t: Tid, a: Action, u: Tid)
    requires u in s.threads && u != t
    ensures var r := Step(s, t, a);
      && r.threads.Keys == s.threads.Keys
      && (r.threads[u] == s.threads[u]
          || (a.Go? && t in s.threads && s.threads[t].pc.Wake? && r.threads[u] == s.threads[u].(run := Running)))
  {
    if t in s.threads && a.Go? {
      OthersKeptByMove(s, t, u);
      OthersKeptByWait(s, t, u);
      OthersKeptByOther(s, t, u);
    }
  }

  // ---------------------------------------------------------------- mutual exclusion

  /** The mutex goes from one state to the next as the place of the thread says: it is taken only when it is free and
      released only by its owner. */
  predicate HolderOk(s: State, r: State, t: Tid) {
    && t in r.threads
    && (Critical(r.threads[t].pc) <==> r.holder == Some(t))
    && (r.holder == s.holder || (s.holder == None && r.holder == Some(t)) || (s.holder == Some(t) && r.holder == None))
  }

  lemma WaitMovesHolder(s: State, t: Tid)
    requires t in s.threads && (Critical(s.threads[t].pc) <==> s.holder == Some(t))
    ensures HolderOk(s, GoWait(s, t, s.threads[t]), t)
  {
  }

  lemma MoveKeepsHolder(s: State, t: Tid)
    requires t in s.threads && InMove(s.threads[t].pc) && s.holder == Some(t)
    ensures HolderOk(s, GoMove(s, t, s.threads[t]), t)
  {
  }

  lemma OtherMovesHolder(s: State, t: Tid)
    requires t in s.threads && (Critical(s.threads[t].pc) <==> s.holder == Some(t))
    ensures HolderOk(s, GoOther(s, t, s.threads[t]), t)
  {
  }

  lemma CallKeepsHolder(s: State, t: Tid, a: Action)
    requires t in s.threads && (Critical(s.threads[t].pc) <==> s.holder == Some(t))
    ensures HolderOk(s, CallStep(s, t, s.threads[t], a), t)
  {
  }

  /** A step takes the mutex only when it is free and releases it only when the thread owns it. */
  lemma HolderMoves(s: State, t: Tid, a: Action)
    requires t in s.threads && (Critical(s.threads[t].pc) <==> s.holder == Some(t))
    ensures HolderOk(s, Step(s, t, a), t)
  {
    match a
    case Go =>
      if InMove(s.threads[t].pc) {
        MoveKeepsHolder(s, t);
      } else if InOther(s.threads[t].pc) {
        OtherMovesHolder(s, t);
      } else {
        WaitMovesHolder(s, t);
      }
    case Fault(junk) =>
    case Signal =>
    case _ => CallKeepsHolder(s, t, a);
  }

  lemma MutexKept(s: State, t: Tid, a: Action)
    requires MutexOk(s)
    ensures MutexOk(Step(s, t, a))
  {
    if t in s.threads {
      var r := Step(s, t, a);
      HolderMoves(s, t, a);
      forall u | u in r.threads && u != t ensures Critical(r.threads[u].pc) <==> r.holder == Some(u) {
        KeysKept(s, t, a);
        OthersKept(s, t, a, u);
      }
      KeysKept(s, t, a);
    }
  }

  lemma KeysKept(s: State, t: Tid, a: Action)
    ensures Step(s, t, a).threads.Keys == s.threads.Keys
  {
  }

  // ---------------------------------------------------------------- memory and locals

  lemma OwnMoveKept(s: State, t: Tid)
    requires MemOk(s) && t in s.threads && ThreadOk(s.mem, s.len, s.threads[t]) && InMove(s.threads[t].pc)
    ensures var r := GoMove(s, t, s.threads[t]);
      MemOk(r) && t in r.threads && ThreadOk(r.mem, r.len, r.threads[t])
  {
  }

  lemma OwnWaitKept(s: State, t: Tid)
    requires MemOk(s) && t in s.threads && ThreadOk(s.mem, s.len, s.threads[t])
    ensures var r := GoWait(s, t, s.threads[t]);
      MemOk(r) && t in r.threads && ThreadOk(r.mem, r.len, r.threads[t])
  {
  }

  lemma OwnOtherKept(s: State, t: Tid)
    requires MemOk(s) && t in s.threads && ThreadOk(s.mem, s.len, s.threads[t]) && InOther(s.threads[t].pc)
    ensures var r := GoOther(s, t, s.threads[t]);
      MemOk(r) && t in r.threads && ThreadOk(r.mem, r.len, r.threads[t])
  {
  }

  lemma OwnCallKept(s: State, t: Tid, a: Action)
    requires MemOk(s) && t in s.threads && ThreadOk(s.mem, s.len, s.threads[t])
    ensures var r := CallStep(s, t, s.threads[t], a);
      MemOk(r) && t in r.threads && ThreadOk(r.mem, r.len, r.threads[t])
  {
  }

  lemma OwnRestKept(s: State, t: Tid, a: Action)
    requires MemOk(s) && t in s.threads && ThreadOk(s.mem, s.len, s.threads[t]) && !a.Go?
    ensures var r := Step(s, t, a);
      MemOk(r) && t in r.threads && ThreadOk(r.mem, r.len, r.threads[t])
  {
    if !a.Fault? && !a.Signal? { OwnCallKept(s, t, a); }
  }

  lemma OwnKept(s: State, t: Tid, a: Action)
    requires Inv(s) && t in s.threads
    ensures var r := Step(s, t, a);
      MemOk(r) && t in r.threads && ThreadOk(r.mem, r.len, r.threads[t])
  {
    var th := s.threads[t];
    assert ThreadOk(s.mem, s.len, th);
    if !a.Go? {
      OwnRestKept(s, t, a);
    } else if InMove(th.pc) {
      OwnMoveKept(s, t);
    } else if InOther(th.pc) {
      OwnOtherKept(s, t);
    } else {
      OwnWaitKept(s, t);
    }
  }

  /** What a thread outside the copy section knows does not depend on the buffer. */
  lemma ElsewhereKept(s: State, t: Tid, a: Action, u: Tid)
    requires MutexOk(s) && ThreadsOk(s) && u in s.threads && u != t
    ensures var r := Step(s, t, a); u in r.threads && ThreadOk(r.mem, r.len, r.threads[u])
  {
    OthersKept(s, t, a, u);
    OnlyHolderWrites(s, t, a);
    assert ThreadOk(s.mem, s.len, s.threads[u]);
    assert Critical(s.threads[u].pc) <==> s.holder == Some(u);
  }

  lemma ThreadsKept(s: State, t: Tid, a: Action)
    requires Inv(s)
    ensures MemOk(Step(s, t, a)) && ThreadsOk(Step(s, t, a))
  {
    if t in s.threads {
      OwnKept(s, t, a);
      KeysKept(s, t, a);
      forall u | u in s.threads && u != t ensures ThreadOk(Step(s, t, a).mem, Step(s, t, a).len, Step(s, t, a).threads[u]) {
        ElsewhereKept(s, t, a, u);
      }
    }
  }

  // ---------------------------------------------------------------- wake-ups

  /** Only lines 98 and 149 change current_len, and each leaves its thread owing a wake-up to the other side. */
  lemma LenMoves(s: State, t: Tid, a: Action)
    requires t in s.threads && ThreadOk(s.mem, s.len, s.threads[t])
    ensures
      var r := Step(s, t, a);
      && t in r.threads
      && (r.len == s.len
          || (s.threads[t].pc.Shrink? && r.threads[t].pc == Wake(Reader) && r.len < s.len)
          || (s.threads[t].pc.Grow? && r.threads[t].pc == Wake(Writer) && r.len > s.len))
  {
    var th := s.threads[t];
    if a.Go? {
      if InMove(th.pc) {
      } else {
        assert Step(s, t, a).len == s.len;
      }
    }
  }

  /** A thread is interruptible after its own step only on its way to sleep. */
  lemma GoesToSleep(s: State, t: Tid, a: Action)
    requires t in s.threads && ThreadOk(s.mem, s.len, s.threads[t])
    ensures
      var r := Step(s, t, a);
      var th := s.threads[t];
      && t in r.threads
      && (r.threads[t].run.Interruptible? ==>
            && r.len == s.len && r.threads[t].queue == th.queue
            && (th.pc.Test? ==> Blocked(th.pc.side, s.len) && th.queue == Some(th.pc.side))
            && (th.pc.Test? || th.run.Interruptible?))
  {
    var th := s.threads[t];
    match a
    case Go =>
      if InMove(th.pc) || InOther(th.pc) {
      } else {
        assert Step(s, t, a) == GoWait(s, t, th);
      }
    case Fault(junk) =>
    case Signal =>
    case _ => assert Step(s, t, a) == CallStep(s, t, th, a);
  }

  /** A wake-up that another thread owes stays owed. */
  lemma OwedKept(s: State, t: Tid, a: Action, side: Side)
    requires MutexOk(s) && t in s.threads && WakeOwed(s, side) && s.holder != Some(t)
    ensures WakeOwed(Step(s, t, a), side)
  {
    OthersKept(s, t, a, s.holder.value);
    HolderMoves(s, t, a);
  }

  /** The step that goes to sleep does so under the mutex and with reason. */
  lemma SleeperKept(s: State, t: Tid, a: Action)
    requires MutexOk(s) && t in s.threads && ThreadOk(s.mem, s.len, s.threads[t]) && SleepOk(s, s.threads[t])
    ensures t in Step(s, t, a).threads && SleepOk(Step(s, t, a), Step(s, t, a).threads[t])
  {
    var th := s.threads[t];
    GoesToSleep(s, t, a);
    if th.run.Interruptible? && th.queue.Some? && WakeOwed(s, th.queue.value) {
      OwedKept(s, t, a, th.queue.value);
    }
  }

  /** Whoever owes a wake-up either keeps owing it or wakes the queue. */
  lemma DebtorKept(s: State, t: Tid, a: Action, u: Tid, side: Side)
    requires t in s.threads && u in s.threads && u != t && s.holder == Some(t)
    requires s.threads[t].pc == Wake(Other(side)) && s.threads[u].queue == Some(side)
    ensures
      var r := Step(s, t, a);
      u in r.threads && (r.threads[u].run.Running? || WakeOwed(r, side))
  {
    var th := s.threads[t];
    if a.Go? {
      assert Step(s, t, a) == GoMove(s, t, th);
    }
  }

  /** A thread that sleeps through another thread's step still has reason to sleep, or is still owed its wake-up. */
  lemma OtherSleeperKept(s: State, t: Tid, a: Action, u: Tid)
    requires MutexOk(s) && t in s.threads && u in s.threads && u != t
    requires ThreadOk(s.mem, s.len, s.threads[t]) && SleepOk(s, s.threads[u])
    ensures u in Step(s, t, a).threads && SleepOk(Step(s, t, a), Step(s, t, a).threads[u])
  {
    OthersKept(s, t, a, u);
    if Step(s, t, a).threads[u] == s.threads[u] && s.threads[u].run.Interruptible? && s.threads[u].queue.Some? {
      var side := s.threads[u].queue.value;
      if WakeOwed(s, side) {
        if s.holder == Some(t) {
          DebtorKept(s, t, a, u, side);
        } else {
          OwedKept(s, t, a, side);
        }
      } else {
        LenMoves(s, t, a);
        HolderMoves(s, t, a);
      }
    }
  }

  lemma WakeKept(s: State, t: Tid, a: Action)
    requires Inv(s)
    ensures WakeOk(Step(s, t, a))
  {
    if t in s.threads {
      KeysKept(s, t, a);
      assert ThreadOk(s.mem, s.len, s.threads[t]);
      SleeperKept(s, t, a);
      forall u | u in s.threads && u != t
        ensures u in Step(s, t, a).threads && SleepOk(Step(s, t, a), Step(s, t, a).threads[u])
      {
        OtherSleeperKept(s, t, a, u);
      }
    }
  }

  // ---------------------------------------------------------------- the log

  lemma Snoc(log: seq<Event>, e: Event)
    ensures Replay(log + [e]) == Apply(Replay(log), e)
    ensures Legal(log + [e]) <==> Legal(log) && Allowed(Replay(log), e)
    ensures Accepted(log + [e]) == Accepted(log) + (if e.Put? then e.bytes else [])
    ensures Delivered(log + [e]) == Delivered(log) + (if e.Got? then e.bytes else [])
    ensures forall t :: EventsOf(log + [e], t) == EventsOf(log, t) + (if !e.Cleared? && e.who == t then [e] else [])
  {
    assert (log + [e])[..|log|] == log;
  }

  /** A step of a thread that does not hold the mutex leaves the pending bytes alone. */
  lemma PendingKeptByOthers(s: State, t: Tid, a: Action)
    requires MutexOk(s) && t in s.threads && s.holder != Some(t)
    ensures Pending(Step(s, t, a)) == Pending(s)
  {
    var r := Step(s, t, a);
    OnlyHolderWrites(s, t, a);
    assert Critical(s.threads[t].pc) <==> s.holder == Some(t);
    HolderMoves(s, t, a);
    if r.holder == s.holder && s.holder.Some? {
      OthersKept(s, t, a, s.holder.value);
    } else if r.holder == Some(t) {
      assert !r.threads[t].pc.Shrink?;
    }
  }

  /** A thread in the copy section, before its copy and its shift. */
  lemma CopyKeepsLog(s: State, t: Tid)
    requires MemOk(s) && s.holder == Some(t) && t in s.threads && ThreadOk(s.mem, s.len, s.threads[t])
    requires s.threads[t].pc.Copy? || s.threads[t].pc.Shift? || s.threads[t].pc.Wake?
    ensures Pending(GoMove(s, t, s.threads[t])) == Pending(s) && GoMove(s, t, s.threads[t]).log == s.log
  {
    var th := s.threads[t];
    var r := GoMove(s, t, th);
    match th.pc
    case Copy(Reader) =>
    case Copy(Writer) =>
      assert Slice(r.mem, 0, s.len) == Slice(s.mem, 0, s.len);
    case Shift =>
      assert th.data + Slice(r.mem, 0, s.len - th.count) == Slice(s.mem, 0, s.len);
    case Wake(_) =>
  }

  /** Line 98 takes the bytes that the reader has from the front of the FIFO. */
  lemma ShrinkKeepsLog(s: State, t: Tid)
    requires MemOk(s) && s.holder == Some(t) && t in s.threads && s.threads[t].pc.Shrink?
    requires ThreadOk(s.mem, s.len, s.threads[t]) && LogOk(s)
    ensures LogOk(GoMove(s, t, s.threads[t]))
  {
    var th := s.threads[t];
    Snoc(s.log, Got(t, th.data));
    DropFront(th.data, Slice(s.mem, 0, s.len - th.count));
  }

  lemma GrowPending(s: State, t: Tid)
    requires MemOk(s) && s.holder == Some(t) && t in s.threads && s.threads[t].pc.Grow?
    requires ThreadOk(s.mem, s.len, s.threads[t])
    ensures
      var th, r := s.threads[t], GoMove(s, t, s.threads[t]);
      Pending(r) == Pending(s) + th.data && |Pending(s)| + |th.data| <= HELLODEV_SIZE && r.log == s.log + [Put(t, th.data)]
  {
    var th := s.threads[t];
    SliceTwice(s.mem, 0, s.len, th.count);
  }

  /** Line 149 puts the writer's bytes at the back of the FIFO. */
  lemma GrowKeepsLog(s: State, t: Tid)
    requires MemOk(s) && s.holder == Some(t) && t in s.threads && s.threads[t].pc.Grow?
    requires ThreadOk(s.mem, s.len, s.threads[t]) && LogOk(s)
    ensures LogOk(GoMove(s, t, s.threads[t]))
  {
    GrowPending(s, t);
    Snoc(s.log, Put(t, s.threads[t].data));
  }

  /** Apart from the code's own steps nothing changes the pending bytes: a failed copy only touches bytes past them. */
  lemma FaultKeepsPending(s: State, t: Tid, a: Action)
    requires MemOk(s) && s.holder == Some(t) && t in s.threads && !a.Go? && Critical(s.threads[t].pc)
    ensures Pending(Step(s, t, a)) == Pending(s) && Step(s, t, a).log == s.log
  {
    var th := s.threads[t];
    var r := Step(s, t, a);
    if a.Fault? && th.pc == Copy(Writer) {
      assert Slice(r.mem, 0, s.len) == Slice(s.mem, 0, s.len);
    }
  }

  /** Line 51 is the clear event. */
  lemma ClearKeepsLog(s: State, t: Tid)
    requires MemOk(s) && s.holder == Some(t) && t in s.threads && s.threads[t].pc.Clear? && LogOk(s)
    ensures LogOk(GoOther(s, t, s.threads[t]))
  {
    Snoc(s.log, Cleared(t));
    assert Slice(Zeros(HELLODEV_SIZE), 0, s.len) == Zeros(s.len);
  }

  /** The other steps of the holder move no byte. */
  lemma IdleStepKeepsPending(s: State, t: Tid)
    requires s.holder == Some(t) && t in s.threads && !InMove(s.threads[t].pc) && !s.threads[t].pc.Clear?
    ensures Pending(Step(s, t, Go)) == Pending(s) && Step(s, t, Go).log == s.log
  {
    var th := s.threads[t];
    var r := Step(s, t, Go);
    assert r == if InOther(th.pc) then GoOther(s, t, th) else GoWait(s, t, th);
    assert r.mem == s.mem && r.len == s.len && r.log == s.log;
    assert t in r.threads && !r.threads[t].pc.Shrink?;
  }

  lemma RestKeepsLog(s: State, t: Tid, a: Action)
    requires MemOk(s) && s.holder == Some(t) && t in s.threads && (a.Go? ==> !InMove(s.threads[t].pc))
    requires LogOk(s) && Critical(s.threads[t].pc)
    ensures LogOk(Step(s, t, a))
  {
    if !a.Go? {
      FaultKeepsPending(s, t, a);
    } else if s.threads[t].pc.Clear? {
      ClearKeepsLog(s, t);
    } else {
      IdleStepKeepsPending(s, t);
    }
  }

  lemma LogKept(s: State, t: Tid, a: Action)
    requires Inv(s)
    ensures LogOk(Step(s, t, a))
  {
    if t in s.threads {
      assert ThreadOk(s.mem, s.len, s.threads[t]);
      assert Critical(s.threads[t].pc) <==> s.holder == Some(t);
      if s.holder != Some(t) {
        PendingKeptByOthers(s, t, a);
        OnlyHolderWrites(s, t, a);
      } else if a.Go? && InMove(s.threads[t].pc) {
        if s.threads[t].pc.Shrink? {
          ShrinkKeepsLog(s, t);
        } else if s.threads[t].pc.Grow? {
          GrowKeepsLog(s, t);
        } else {
          CopyKeepsLog(s, t);
        }
      } else {
        RestKeepsLog(s, t, a);
      }
    }
  }

  // ---------------------------------------------------------------- what calls report

  /** A step makes at most one event, and that event is the stepping thread's own and now in flight. */
  lemma LogMoves(s: State, t: Tid, a: Action)
    requires t in s.threads
    ensures
      var r := Step(s, t, a);
      var th := s.threads[t];
      if a.Go? && th.pc.Shrink? then r.log == s.log + [Got(t, th.data)]
      else if a.Go? && th.pc.Grow? then r.log == s.log + [Put(t, th.data)]
      else if a.Go? && th.pc.Clear? then r.log == s.log + [Cleared(t)]
      else r.log == s.log
  {
  }

  lemma EventsMove(s: State, t: Tid, a: Action, u: Tid)
    requires t in s.threads
    ensures
      var th := s.threads[t];
      EventsOf(Step(s, t, a).log, u) == EventsOf(s.log, u)
      + (if a.Go? && u == t && th.pc.Shrink? then [Got(t, th.data)]
         else if a.Go? && u == t && th.pc.Grow? then [Put(t, th.data)] else [])
  {
    LogMoves(s, t, a);
    var th := s.threads[t];
    if a.Go? && th.pc.Shrink? {
      Snoc(s.log, Got(t, th.data));
    } else if a.Go? && th.pc.Grow? {
      Snoc(s.log, Put(t, th.data));
    } else if a.Go? && th.pc.Clear? {
      Snoc(s.log, Cleared(t));
    }
  }

  /** What the thread has reported and what it has still to report, together. */
  function Reports(s: State, t: Tid): (r: seq<Event>)
    requires t in s.threads
  {
    s.threads[t].returned + InFlight(t, s.threads[t])
  }

  lemma WaitReports(s: State, t: Tid)
    requires t in s.threads && ThreadOk(s.mem, s.len, s.threads[t]) && !InMove(s.threads[t].pc)
    ensures var r := GoWait(s, t, s.threads[t]); t in r.threads && Reports(r, t) == Reports(s, t)
  {
  }

  lemma OtherReports(s: State, t: Tid)
    requires t in s.threads && InOther(s.threads[t].pc)
    ensures var r := GoOther(s, t, s.threads[t]); t in r.threads && Reports(r, t) == Reports(s, t)
  {
  }

  lemma MoveInFlight(s: State, t: Tid)
    requires t in s.threads && ThreadOk(s.mem, s.len, s.threads[t]) && InMove(s.threads[t].pc)
    ensures
      var r := GoMove(s, t, s.threads[t]);
      var th := s.threads[t];
      && t in r.threads && r.threads[t].returned == th.returned
      && InFlight(t, r.threads[t])
         == (if th.pc.Shrink? then [Got(t, th.data)] else if th.pc.Grow? then [Put(t, th.data)] else InFlight(t, th))
      && (th.pc.Shrink? || th.pc.Grow? ==> InFlight(t, th) == [])
  {
  }

  lemma MoveReports(s: State, t: Tid)
    requires t in s.threads && ThreadOk(s.mem, s.len, s.threads[t]) && InMove(s.threads[t].pc)
    ensures
      var r := GoMove(s, t, s.threads[t]);
      var th := s.threads[t];
      && t in r.threads
      && Reports(r, t) == Reports(s, t)
      + (if th.pc.Shrink? then [Got(t, th.data)] else if th.pc.Grow? then [Put(t, th.data)] else [])
  {
    MoveInFlight(s, t);
    assert s.threads[t].returned + [] == s.threads[t].returned;
  }

  lemma RestReports(s: State, t: Tid, a: Action)
    requires t in s.threads && ThreadOk(s.mem, s.len, s.threads[t]) && !a.Go?
    ensures var r := Step(s, t, a); t in r.threads && Reports(r, t) == Reports(s, t)
  {
  }

  lemma ReportKept(s: State, t: Tid, a: Action)
    requires t in s.threads && ThreadOk(s.mem, s.len, s.threads[t])
    ensures
      var r := Step(s, t, a);
      var th := s.threads[t];
      && t in r.threads
      && Reports(r, t) == Reports(s, t)
      + (if a.Go? && th.pc.Shrink? then [Got(t, th.data)]
         else if a.Go? && th.pc.Grow? then [Put(t, th.data)] else [])
  {
    var th := s.threads[t];
    if !a.Go? {
      RestReports(s, t, a);
    } else if InMove(th.pc) {
      MoveReports(s, t);
    } else if InOther(th.pc) {
      OtherReports(s, t);
    } else {
      WaitReports(s, t);
    }
  }

  lemma OtherReportKept(s: State, t: Tid, a: Action, u: Tid)
    requires t in s.threads && u in s.threads && u != t
    ensures
      var r := Step(s, t, a);
      && u in r.threads
      && r.threads[u].returned + InFlight(u, r.threads[u]) == s.threads[u].returned + InFlight(u, s.threads[u])
  {
    OthersKept(s, t, a, u);
  }

  lemma ReturnsKept(s: State, t: Tid, a: Action)
    requires Inv(s)
    ensures ReturnsOk(Step(s, t, a))
  {
    if t in s.threads {
      assert ThreadOk(s.mem, s.len, s.threads[t]);
      KeysKept(s, t, a);
      ReportKept(s, t, a);
      EventsMove(s, t, a, t);
      forall u | u in s.threads && u != t
        ensures var r := Step(s, t, a);
          u in r.threads && EventsOf(r.log, u) == r.threads[u].returned + InFlight(u, r.threads[u])
      {
        OtherReportKept(s, t, a, u);
        EventsMove(s, t, a, u);
      }
    }
  }

  /** One step of any thread keeps the whole invariant. */
  lemma StepKept(s: State, t: Tid, a: Action)
    requires Inv(s)
    ensures Inv(Step(s, t, a))
  {
    MutexKept(s, t, a);
    ThreadsKept(s, t, a);
    WakeKept(s, t, a);
    LogKept(s, t, a);
    ReturnsKept(s, t, a);
  }

  lemma {:induction false} RunKept(s: State, schedule: seq<(Tid, Action)>)
    requires Inv(s)
    ensures Inv(Execute(s, schedule))
    decreases schedule
  {
    if schedule != [] {
      StepKept(s, schedule[0].0, schedule[0].1);
      RunKept(Step(s, schedule[0].0, schedule[0].1), schedule[1..]);
    }
  }

  /** Some set of threads reaches the state under some schedule. */
  ghost predicate Reachable(s: State) {
    exists tids, schedule :: s == Execute(Init(tids), schedule)
  }

  /** Every reachable state satisfies the invariant. */
  lemma ReachableInv(s: State)
    requires Reachable(s)
    ensures Inv(s)
  {
    var tids, schedule :| s == Execute(Init(tids), schedule);
    RunKept(Init(tids), schedule);
  }
}
