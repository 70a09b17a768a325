/** What the invariant of the FIFO means for its users. Every theorem is about any state that any set of
    threads reaches under any schedule. */
module GlobalFifoTheorems {
  import opened Options
  import opened Bytes
  import opened GlobalFifo
  import opened GlobalFifoSafety

  // ---------------------------------------------------------------- bytes

  ghost predicate NoClears(log: seq<Event>) {
    forall i :: 0 <= i < |log| ==> !log[i].Cleared?
  }

  /** Handing out the front of the queue moves bytes from the queue to the delivered ones. */
  lemma TakeOff(out: seq<byte>, q: seq<byte>, bs: seq<byte>)
    requires bs <= q
    ensures (out + bs) + q[|bs|..] == out + q
  {
  }

  lemma {:induction false} LegalConserves(log: seq<Event>)
    requires Legal(log) && NoClears(log)
    ensures Delivered(log) + Replay(log) == Accepted(log)
  {
    if log != [] {
      var front, e := log[..|log| - 1], log[|log| - 1];
      LegalConserves(front);
      assert !e.Cleared?;
      if e.Got? {
        TakeOff(Delivered(front), Replay(front), e.bytes);
        assert Accepted(log) == Accepted(front) + [] == Accepted(front);
      } else {
        Assoc(Delivered(front), Replay(front), e.bytes);
        assert Delivered(log) == Delivered(front) + [] == Delivered(front);
      }
    }
  }

  /** The same bytes, except that some may have been zeroed. */
  ghost predicate ZeroedFrom(xs: seq<byte>, ys: seq<byte>) {
    |xs| == |ys| && forall i :: 0 <= i < |xs| ==> xs[i] == ys[i] || xs[i] == 0
  }

  lemma ZeroedTail(xs: seq<byte>, tail: seq<byte>, ys: seq<byte>)
    requires ZeroedFrom(xs + tail, ys)
    ensures ZeroedFrom(xs + Zeros(|tail|), ys)
  {
    forall i | 0 <= i < |ys| ensures (xs + Zeros(|tail|))[i] == ys[i] || (xs + Zeros(|tail|))[i] == 0 {
      assert (xs + tail)[i] == ys[i] || (xs + tail)[i] == 0;
    }
  }

  lemma ZeroedPut(xs: seq<byte>, tail: seq<byte>, ys: seq<byte>, bs: seq<byte>)
    requires ZeroedFrom(xs + tail, ys)
    ensures ZeroedFrom(xs + (tail + bs), ys + bs)
  {
    assert xs + (tail + bs) == (xs + tail) + bs;
  }

  lemma {:induction false} LegalConservesZeroed(log: seq<Event>)
    requires Legal(log)
    ensures ZeroedFrom(Delivered(log) + Replay(log), Accepted(log))
  {
    if log != [] {
      var front, e := log[..|log| - 1], log[|log| - 1];
      LegalConservesZeroed(front);
      var out, q := Delivered(front), Replay(front);
      match e
      case Got(_, bs) =>
        TakeOff(out, q, bs);
      case Put(_, bs) =>
        ZeroedPut(out, q, Accepted(front), bs);
        assert out + [] == out;
      case Cleared(_) =>
        ZeroedTail(out, q, Accepted(front));
        assert out + [] == out && Accepted(front) + [] == Accepted(front);
    }
  }

  /** First in, first out, over any interleaving: with the mutex free, the bytes that successful reads have
      delivered followed by the bytes in the buffer are the bytes that successful writes have accepted. */
  lemma FirstInFirstOut(s: State)
    requires Reachable(s)
    ensures |s.mem| == HELLODEV_SIZE && 0 <= s.len <= HELLODEV_SIZE
    ensures NoClears(s.log) ==> Delivered(s.log) + Pending(s) == Accepted(s.log)
    ensures NoClears(s.log) && s.holder.None? ==> Delivered(s.log) + s.mem[..s.len] == Accepted(s.log)
    ensures ZeroedFrom(Delivered(s.log) + Pending(s), Accepted(s.log))
  {
    ReachableInv(s);
    if NoClears(s.log) { LegalConserves(s.log); }
    LegalConservesZeroed(s.log);
  }

  /** What a thread in the critical section finds. */
  lemma OwnerFacts(s: State, t: Tid)
    requires Inv(s) && t in s.threads && Critical(s.threads[t].pc)
    ensures MemOk(s) && s.holder == Some(t) && ThreadOk(s.mem, s.len, s.threads[t])
    ensures !s.threads[t].pc.Shrink? ==> Pending(s) == s.mem[..s.len]
  {
  }

  lemma SplitFront(m: seq<byte>, n: nat, len: nat)
    requires n <= len <= |m|
    ensures m[..len][..n] == m[..n] && m[..len][n..] == m[n..len]
  {
  }

  lemma ClearSection(s: State, t: Tid)
    requires MemOk(s) && s.holder == Some(t) && t in s.threads && s.threads[t].pc.Clear?
    ensures
      var r := Step(s, t, Go);
      Pending(r) == Zeros(s.len) && r.len == s.len && Delivered(r.log) == Delivered(s.log)
  {
    var r := Step(s, t, Go);
    assert r == GoOther(s, t, s.threads[t]);
    assert Slice(r.mem, 0, s.len) == Zeros(s.len);
    Snoc(s.log, Cleared(t));
  }

  lemma ShiftedFront(m: seq<byte>, n: nat, len: nat)
    requires n <= len <= |m|
    ensures Slice(Shifted(m, n, len), 0, len - n) == m[n..len]
  {
  }

  /** The last two steps of the copy section of a read. */
  lemma ReadSectionEnd(s: State, t: Tid)
    requires MemOk(s) && s.holder == Some(t) && t in s.threads && s.threads[t].pc.Shift? && 0 <= s.threads[t].count <= s.len
    ensures
      var th := s.threads[t];
      var r := Step(Step(s, t, Go), t, Go);
      && r.log == s.log + [Got(t, th.data)]
      && r.len == s.len - th.count
      && Pending(r) == s.mem[th.count..s.len]
  {
    var th := s.threads[t];
    var s2 := Step(s, t, Go);
    assert s2 == Set(s, t, th.(pc := Shrink)).(mem := Shifted(s.mem, th.count, s.len));
    assert s2.threads[t] == th.(pc := Shrink);
    ShiftedFront(s.mem, th.count, s.len);
  }

  /** The copy section of a read, run to the point where its bytes have left the FIFO. */
  lemma ReadSection(s: State, t: Tid)
    requires MemOk(s) && s.holder == Some(t) && t in s.threads
    requires s.threads[t].pc == Copy(Reader) && ThreadOk(s.mem, s.len, s.threads[t])
    ensures
      var n := Min(s.threads[t].count, s.len);
      var r := Step(Step(Step(s, t, Go), t, Go), t, Go);
      && 0 <= n <= s.len
      && r.log == s.log + [Got(t, s.mem[..n])]
      && r.len == s.len - n
      && Pending(r) == s.mem[n..s.len]
  {
    var th := s.threads[t];
    var n := Min(th.count, s.len);
    var s1 := Step(s, t, Go);
    assert s1 == Set(s, t, th.(count := n, data := s.mem[..n], pc := Shift));
    ReadSectionEnd(s1, t);
  }

  lemma WriteSection(s: State, t: Tid)
    requires MemOk(s) && s.holder == Some(t) && t in s.threads
    requires s.threads[t].pc == Copy(Writer) && ThreadOk(s.mem, s.len, s.threads[t])
    ensures
      var bytes := s.threads[t].data;
      var n := Min(|bytes|, HELLODEV_SIZE - s.len);
      var r := Step(Step(s, t, Go), t, Go);
      && 0 <= n <= |bytes|
      && r.log == s.log + [Put(t, bytes[..n])]
      && r.len == s.len + n
      && Pending(r) == s.mem[..s.len] + bytes[..n]
  {
    var th := s.threads[t];
    var n := Min(|th.data|, HELLODEV_SIZE - s.len);
    var s1 := Step(s, t, Go);
    var th1 := th.(count := n, data := th.data[..n], pc := Grow);
    assert s1 == GoMove(s, t, th) == Set(s, t, th1).(mem := Splice(s.mem, s.len, th.data[..n]));
    var s2 := Step(s1, t, Go);
    assert s2 == GoMove(s1, t, th1);
    assert Slice(s1.mem, 0, s.len + n) == s.mem[..s.len] + th.data[..n];
  }

  /** A read that gets past its wait takes as much as it asked for or all there is, from the front, and at least one
      byte if it asked for any. */
  lemma ReadTakesWhatItCan(s: State, t: Tid)
    requires Reachable(s)
    requires t in s.threads && s.threads[t].pc == Copy(Reader)
    ensures
      var n := Min(s.threads[t].count, |Pending(s)|);
      var r := Step(Step(Step(s, t, Go), t, Go), t, Go);
      && 0 <= n <= |Pending(s)| && (s.threads[t].count > 0 ==> n > 0)
      && r.log == s.log + [Got(t, Pending(s)[..n])]
      && Pending(r) == Pending(s)[n..] && r.len == s.len - n
  {
    ReachableInv(s);
    OwnerFacts(s, t);
    ReadSection(s, t);
    SplitFront(s.mem, Min(s.threads[t].count, s.len), s.len);
  }

  /** A write that gets past its wait stores as much of its bytes as there is room for, at the back, and at least one
      if it has any. */
  lemma WriteStoresWhatFits(s: State, t: Tid)
    requires Reachable(s)
    requires t in s.threads && s.threads[t].pc == Copy(Writer)
    ensures
      var bytes := s.threads[t].data;
      var n := Min(|bytes|, HELLODEV_SIZE - |Pending(s)|);
      var r := Step(Step(s, t, Go), t, Go);
      && 0 <= n <= |bytes| && (bytes != [] ==> n > 0)
      && r.log == s.log + [Put(t, bytes[..n])]
      && Pending(r) == Pending(s) + bytes[..n] && r.len == s.len + n
  {
    ReachableInv(s);
    OwnerFacts(s, t);
    WriteSection(s, t);
  }

  /** MEM_CLEAR zeroes exactly the pending bytes: their number stays, and so does everything already delivered. */
  lemma ClearZeroesPending(s: State, t: Tid)
    requires Reachable(s)
    requires t in s.threads && s.threads[t].pc.Clear?
    ensures
      var r := Step(s, t, Go);
      Pending(r) == Zeros(|Pending(s)|) && r.len == s.len && Delivered(r.log) == Delivered(s.log)
  {
    ReachableInv(s);
    OwnerFacts(s, t);
    ClearSection(s, t);
  }

  /** A failed copy is invisible: no pending byte, length or event changes. */
  lemma FailedCopyInvisible(s: State, t: Tid, junk: seq<byte>)
    requires Reachable(s)
    ensures
      var r := Step(s, t, Fault(junk));
      Pending(r) == Pending(s) && r.len == s.len && r.log == s.log
  {
    ReachableInv(s);
    if t in s.threads {
      assert Critical(s.threads[t].pc) <==> s.holder == Some(t);
      if s.holder == Some(t) {
        FaultKeepsPending(s, t, Fault(junk));
      }
    }
  }

  /** A thread outside the driver has been told of exactly the events it made: one per call that returned a
      count, with the bytes of that call, and none for a call that returned an error. Only a non-blocking call
      that finds no bytes or no room returns -EAGAIN, and only a signalled one -ERESTARTSYS. */
  lemma CallsReportTheirEvents(s: State, t: Tid)
    requires Reachable(s)
    requires t in s.threads
    ensures
      var th := s.threads[t];
      && (th.pc.Idle? ==> EventsOf(s.log, t) == th.returned)
      && (th.pc.Unlock? && th.ret.EAgain? ==> th.nonblock && Blocked(th.pc.side, s.len))
      && (th.pc.Leave? && th.ret.Count? ==>
            && th.ret.n == |th.data|
            && EventsOf(s.log, t) == th.returned + [if th.pc.side.Reader? then Got(t, th.data) else Put(t, th.data)])
      && (th.pc.Leave? && !th.ret.Count? ==>
            && EventsOf(s.log, t) == th.returned
            && (th.ret.EFault? || (th.ret.EAgain? && th.nonblock) || (th.ret.ERestartSys? && th.signal)))
  {
    ReachableInv(s);
    assert ThreadOk(s.mem, s.len, s.threads[t]);
  }

  // ---------------------------------------------------------------- the mutex

  /** At most one thread owns the mutex, only the owner changes the buffer, the length or the log, and every
      exit is clean: a thread that has passed the unlock or is outside the driver does not own the mutex, and one
      that is outside is runnable and on no wait queue. */
  lemma MutualExclusion(s: State, t: Tid, u: Tid, a: Action)
    requires Reachable(s)
    requires t in s.threads && u in s.threads
    ensures
      var r := Step(s, t, a);
      && (Critical(s.threads[t].pc) && Critical(s.threads[u].pc) ==> t == u)
      && (r.mem != s.mem || r.len != s.len || r.log != s.log ==> s.holder == Some(t))
      && (s.threads[t].pc.Idle? || s.threads[t].pc.Leave? ==> s.holder != Some(t))
      && (s.threads[t].pc.Idle? ==> s.threads[t].queue.None? && s.threads[t].run.Running?)
  {
    ReachableInv(s);
    assert Critical(s.threads[t].pc) <==> s.holder == Some(t);
    assert Critical(s.threads[u].pc) <==> s.holder == Some(u);
    OnlyHolderWrites(s, t, a);
  }

  // ---------------------------------------------------------------- sleep and wake

  predicate Asleep(th: Thread) {
    th.pc.Schedule? && th.run.Interruptible? && !th.signal
  }

  /** No wake-up is lost: a sleeping reader (writer) means an empty (full) buffer, or a mutex holder that has
      just changed the length and is about to wake that queue. */
  lemma NoLostWakeup(s: State, t: Tid)
    requires Reachable(s)
    requires t in s.threads && s.threads[t].run.Interruptible?
    ensures
      var th := s.threads[t];
      && (th.pc.Doze? || th.pc.Schedule?)
      && th.queue == Some(th.pc.side) && !th.nonblock
      && (Blocked(th.pc.side, s.len) || WakeOwed(s, th.pc.side))
      && (s.holder.None? ==> s.len == if th.pc.side.Reader? then 0 else HELLODEV_SIZE)
  {
    ReachableInv(s);
    assert ThreadOk(s.mem, s.len, s.threads[t]);
    assert SleepOk(s, s.threads[t]);
  }

  /** A signal gets a thread out of schedule and out of the driver by its own steps alone, whoever holds the mutex:
      with -ERESTARTSYS, off its queue, and without touching mutex, buffer or history. */
  lemma SignalGetsSleeperOut(s: State, t: Tid)
    requires t in s.threads && s.threads[t].pc.Schedule?
    ensures
      var r := Step(Step(Step(Step(s, t, Signal), t, Go), t, Go), t, Go);
      && t in r.threads && r.threads[t].pc.Idle? && r.threads[t].ret.ERestartSys?
      && r.threads[t].queue.None? && r.threads[t].returned == s.threads[t].returned
      && r.holder == s.holder && r.mem == s.mem && r.len == s.len && r.log == s.log
  {
    var th := s.threads[t];
    var th1 := th.(signal := true, run := Running);
    var s1 := Step(s, t, Signal);
    assert s1.threads[t] == th1;
    var s2 := Step(s1, t, Go);
    assert s2 == Set(s1, t, th1.(pc := SignalTest(th.pc.side)));
    var s3 := Step(s2, t, Go);
    assert s3 == Set(s2, t, th1.(ret := ERestartSys, pc := Leave(th.pc.side)));
  }

  /** No thread can take a step of its code. */
  ghost predicate Stuck(s: State) {
    forall t :: t in s.threads ==> Step(s, t, Go) == s
  }

  /** Every thread is outside the driver, or asleep for want of bytes or of room. */
  ghost predicate Quiet(s: State) {
    forall t :: t in s.threads ==>
                  s.threads[t].pc.Idle? || (Asleep(s.threads[t]) && Blocked(s.threads[t].pc.side, s.len))
  }

  lemma HolderCanStep(s: State, t: Tid)
    requires t in s.threads && s.holder == Some(t) && Critical(s.threads[t].pc) && !InPoll(s.threads[t].pc)
    ensures Step(s, t, Go) != s
  {
    var r := Step(s, t, Go);
    assert r.threads[t].pc != s.threads[t].pc;
  }

  lemma ActiveCanStep(s: State, t: Tid)
    requires t in s.threads && s.holder.None? && !Critical(s.threads[t].pc)
    requires !s.threads[t].pc.Idle? && !Asleep(s.threads[t])
    ensures Step(s, t, Go) != s
  {
    var r := Step(s, t, Go);
    assert r.threads[t].pc != s.threads[t].pc;
  }

  /** No thread is inside hello_poll. */
  ghost predicate NoPoll(s: State) {
    forall t :: t in s.threads ==> !InPoll(s.threads[t].pc)
  }

  lemma StuckIsQuiet(s: State)
    requires Inv(s) && NoPoll(s) && Stuck(s)
    ensures Quiet(s)
  {
    if s.holder.Some? {
      assert Critical(s.threads[s.holder.value].pc);
      HolderCanStep(s, s.holder.value);
    }
    forall t | t in s.threads
      ensures s.threads[t].pc.Idle? || (Asleep(s.threads[t]) && Blocked(s.threads[t].pc.side, s.len))
    {
      assert Critical(s.threads[t].pc) <==> s.holder == Some(t);
      assert SleepOk(s, s.threads[t]) && ThreadOk(s.mem, s.len, s.threads[t]);
      if !s.threads[t].pc.Idle? && !Asleep(s.threads[t]) {
        ActiveCanStep(s, t);
      }
    }
  }

  /** Without poll there is no deadlock: the code of some thread can go on, except exactly when every thread is
      outside the driver or asleep with reason; and then all sleepers are on one side. */
  lemma NoDeadlock(s: State)
    requires Reachable(s) && NoPoll(s)
    ensures Stuck(s) <==> Quiet(s)
    ensures Quiet(s) ==> forall t, u :: t in s.threads && u in s.threads && !s.threads[t].pc.Idle? && !s.threads[u].pc.Idle?
                                        ==> s.threads[t].pc.side == s.threads[u].pc.side
  {
    ReachableInv(s);
    if Stuck(s) { StuckIsQuiet(s); }
  }

  // ---------------------------------------------------------------- poll

  /** The thread has passed the first lock of hello_poll. */
  predicate PollOwns(s: State, t: Tid) {
    t in s.threads && s.holder == Some(t) && (s.threads[t].pc.PollMask? || s.threads[t].pc.PollRelock?)
  }

  lemma PollStepKeeps(s: State, t: Tid, u: Tid, a: Action)
    requires MutexOk(s) && PollOwns(s, t)
    ensures var r := Step(s, u, a);
      PollOwns(r, t) && r.mem == s.mem && r.len == s.len && r.log == s.log
  {
    if u in s.threads {
      assert Critical(s.threads[u].pc) <==> s.holder == Some(u);
      if u != t {
        OnlyHolderWrites(s, u, a);
        HolderMoves(s, u, a);
        OthersKept(s, u, a, t);
      }
    }
  }

  lemma {:induction false} PollRunKeeps(s: State, t: Tid, rest: seq<(Tid, Action)>)
    requires Inv(s) && PollOwns(s, t)
    ensures
      var r := Execute(s, rest);
      PollOwns(r, t) && r.mem == s.mem && r.len == s.len && r.log == s.log
    decreases rest
  {
    if rest != [] {
      PollStepKeeps(s, t, rest[0].0, rest[0].1);
      StepKept(s, rest[0].0, rest[0].1);
      PollRunKeeps(Step(s, rest[0].0, rest[0].1), t, rest[1..]);
    }
  }

  /** As written, hello_poll wedges the device: once a thread has passed its first lock, that thread never
      leaves and never gives the mutex back, and no later step of any thread changes the buffer, the
      length or the log. */
  lemma PollWedges(s: State, t: Tid, rest: seq<(Tid, Action)>)
    requires Reachable(s)
    requires t in s.threads && (s.threads[t].pc.PollMask? || s.threads[t].pc.PollRelock?)
    ensures
      var r := Execute(s, rest);
      PollOwns(r, t) && r.mem == s.mem && r.len == s.len && r.log == s.log
  {
    ReachableInv(s);
    assert Critical(s.threads[t].pc) <==> s.holder == Some(t);
    PollRunKeeps(s, t, rest);
  }
}
