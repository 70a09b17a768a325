/** Whole calls of the FIFO, from the arguments that the caller passes to what it gets back: without interruption, and
    under any schedule. */
module GlobalFifoCalls {
  import opened Options
  import opened Bytes
  import opened GlobalFifo
  import opened GlobalFifoSafety
  import opened GlobalFifoTheorems
  import opened GlobalFifoProgress

  // ---------------------------------------------------------------- one thread's own steps

  /** The state after `k` steps of the code of one thread. */
  function Own(s: State, t: Tid, k: nat): (r: State)
    decreases k
  {
    if k == 0 then s else Own(Step(s, t, Go), t, k - 1)
  }

  /** The code of one thread leads from one state to the other, without a step of any other thread. */
  ghost predicate LeadsTo(s: State, t: Tid, r: State) {
    exists k: nat :: Own(s, t, k) == r
  }

  lemma {:induction false} OwnMore(s: State, t: Tid, j: nat, k: nat)
    ensures Own(Own(s, t, j), t, k) == Own(s, t, j + k)
    decreases j
  {
    if j > 0 { OwnMore(Step(s, t, Go), t, j - 1, k); }
  }

  lemma Leads(s: State, t: Tid, m: State, r: State)
    requires LeadsTo(s, t, m) && LeadsTo(m, t, r)
    ensures LeadsTo(s, t, r)
  {
    var j: nat :| Own(s, t, j) == m;
    var k: nat :| Own(m, t, k) == r;
    OwnMore(s, t, j, k);
  }

  lemma LeadsOne(s: State, t: Tid, r: State)
    requires Step(s, t, Go) == r
    ensures LeadsTo(s, t, r)
  {
    assert Own(s, t, 1) == Own(r, t, 0);
  }

  lemma WaitLeads(s: State, t: Tid, r: State)
    requires t in s.threads && !InMove(s.threads[t].pc) && !InOther(s.threads[t].pc)
    requires r == GoWait(s, t, s.threads[t])
    ensures LeadsTo(s, t, r)
  {
    LeadsOne(s, t, r);
  }

  lemma MoveLeads(s: State, t: Tid, r: State)
    requires t in s.threads && InMove(s.threads[t].pc) && r == GoMove(s, t, s.threads[t])
    ensures LeadsTo(s, t, r)
  {
    LeadsOne(s, t, r);
  }

  lemma OtherLeads(s: State, t: Tid, r: State)
    requires t in s.threads && InOther(s.threads[t].pc) && r == GoOther(s, t, s.threads[t])
    ensures LeadsTo(s, t, r)
  {
    LeadsOne(s, t, r);
  }

  /** The state with another thread `t` and another mutex holder. */
  function With(s: State, t: Tid, th: Thread, holder: Option<Tid>): (r: State) {
    s.(threads := s.threads[t := th], holder := holder)
  }

  lemma WithTwice(s: State, t: Tid, th: Thread, h: Option<Tid>, th': Thread, h': Option<Tid>)
    ensures With(With(s, t, th, h), t, th', h') == With(s, t, th', h')
  {
    assert s.threads[t := th][t := th'] == s.threads[t := th'];
  }

  // ---------------------------------------------------------------- into the call

  /** A thread as the call has it at its first test. */
  function Entered(th: Thread, side: Side, n: nat, data: seq<byte>, nb: bool): (r: Thread) {
    th.(pc := Test(side), queue := Some(side), count := n, nonblock := nb, data := data, ret := NoResult)
  }

  lemma LockAndQueue(s: State, t: Tid, side: Side)
    requires t in s.threads && s.holder.None? && s.threads[t].pc == Lock(side)
    ensures LeadsTo(s, t, With(s, t, s.threads[t].(pc := Test(side), queue := Some(side)), Some(t)))
  {
    var th := s.threads[t];
    var th1, th2 := th.(pc := Enqueue(side)), th.(pc := Test(side), queue := Some(side));
    var s1 := With(s, t, th1, Some(t));
    WaitLeads(s, t, s1);
    WithTwice(s, t, th1, Some(t), th2, Some(t));
    WaitLeads(s1, t, With(s, t, th2, Some(t)));
    Leads(s, t, s1, With(s, t, th2, Some(t)));
  }

  lemma ReadEnters(s: State, t: Tid, n: nat, nb: bool)
    requires t in s.threads && s.holder.None? && s.threads[t].pc.Idle?
    ensures LeadsTo(Step(s, t, CallRead(n, nb)), t, With(s, t, Entered(s.threads[t], Reader, n, [], nb), Some(t)))
  {
    var th := s.threads[t].(pc := Lock(Reader), count := n, nonblock := nb, data := [], ret := NoResult);
    assert Step(s, t, CallRead(n, nb)) == With(s, t, th, None);
    LockAndQueue(With(s, t, th, None), t, Reader);
    WithTwice(s, t, th, None, Entered(s.threads[t], Reader, n, [], nb), Some(t));
  }

  lemma WriteEnters(s: State, t: Tid, bs: seq<byte>, nb: bool)
    requires t in s.threads && s.holder.None? && s.threads[t].pc.Idle?
    ensures LeadsTo(Step(s, t, CallWrite(bs, nb)), t, With(s, t, Entered(s.threads[t], Writer, |bs|, bs, nb), Some(t)))
  {
    var th := s.threads[t].(pc := Lock(Writer), count := |bs|, nonblock := nb, data := bs, ret := NoResult);
    assert Step(s, t, CallWrite(bs, nb)) == With(s, t, th, None);
    LockAndQueue(With(s, t, th, None), t, Writer);
    WithTwice(s, t, th, None, Entered(s.threads[t], Writer, |bs|, bs, nb), Some(t));
  }

  // ---------------------------------------------------------------- out of the call

  /** The thread is outside the driver again, off its queue, with this result and this event or none, and the mutex is
      free. */
  predicate Back(r: State, t: Tid, ret: Outcome, returned: seq<Event>) {
    && t in r.threads && r.threads[t].pc.Idle? && r.threads[t].queue.None? && r.threads[t].run.Running?
    && r.threads[t].ret == ret && r.threads[t].returned == returned && r.holder.None?
  }

  predicate SameBytes(s: State, r: State) {
    r.mem == s.mem && r.len == s.len && r.log == s.log
  }

  /** A thread as it leaves the driver. */
  function Gone(th: Thread, returned: seq<Event>): (r: Thread) {
    th.(queue := None, run := Running, signal := false, pc := Idle, returned := returned)
  }

  /** From the unlock on. */
  lemma UnlockAndLeave(s: State, t: Tid)
    requires t in s.threads && s.threads[t].pc.Unlock?
    ensures
      var th := s.threads[t];
      var event := if th.ret.Count? then [if th.pc.side.Reader? then Got(t, th.data) else Put(t, th.data)] else [];
      LeadsTo(s, t, With(s, t, Gone(th, th.returned + event), None))
  {
    var th := s.threads[t];
    var out := th.(pc := Leave(th.pc.side));
    var s1 := With(s, t, out, None);
    WaitLeads(s, t, s1);
    var th2 := Gone(th, th.returned + Report(t, out));
    WithTwice(s, t, out, None, th2, None);
    WaitLeads(s1, t, With(s, t, th2, None));
    Leads(s, t, s1, With(s, t, th2, None));
  }

  /** A non-blocking call that finds no bytes or no room. */
  lemma Refused(s: State, t: Tid) returns (r: State)
    requires t in s.threads && s.holder == Some(t) && s.threads[t].pc.Test?
    requires Blocked(s.threads[t].pc.side, s.len) && s.threads[t].nonblock
    ensures LeadsTo(s, t, r) && Back(r, t, EAgain, s.threads[t].returned) && SameBytes(s, r)
  {
    var th := s.threads[t];
    var s1 := Set(s, t, th.(ret := EAgain, pc := Unlock(th.pc.side)));
    WaitLeads(s, t, s1);
    UnlockAndLeave(s1, t);
    r := With(s1, t, Gone(s1.threads[t], th.returned + []), None);
    Leads(s, t, s1, r);
  }

  /** A blocking one goes to sleep. */
  lemma GoesUnder(s: State, t: Tid) returns (r: State)
    requires t in s.threads && s.holder == Some(t) && s.threads[t].pc.Test?
    requires Blocked(s.threads[t].pc.side, s.len) && !s.threads[t].nonblock
    ensures LeadsTo(s, t, r)
    ensures var th := s.threads[t]; r == With(s, t, th.(run := Interruptible, pc := Schedule(th.pc.side)), None)
  {
    var th := s.threads[t];
    var th1, th2 := th.(run := Interruptible, pc := Doze(th.pc.side)), th.(run := Interruptible, pc := Schedule(th.pc.side));
    var s1 := With(s, t, th1, Some(t));
    WaitLeads(s, t, s1);
    r := With(s, t, th2, None);
    WithTwice(s, t, th1, Some(t), th2, None);
    WaitLeads(s1, t, r);
    Leads(s, t, s1, r);
  }

  /** With a signal pending it does not stay asleep. */
  lemma SignalledOut(s: State, t: Tid) returns (r: State)
    requires t in s.threads && s.holder.None? && s.threads[t].pc.Schedule? && s.threads[t].signal
    ensures LeadsTo(s, t, r) && Back(r, t, ERestartSys, s.threads[t].returned) && SameBytes(s, r)
  {
    var th := s.threads[t];
    var th1 := th.(run := Running, pc := SignalTest(th.pc.side));
    var th2 := th1.(ret := ERestartSys, pc := Leave(th.pc.side));
    var th3 := Gone(th2, th.returned + []);
    var s1, s2 := With(s, t, th1, None), With(s, t, th2, None);
    r := With(s, t, th3, None);
    WaitLeads(s, t, s1);
    WithTwice(s, t, th1, None, th2, None);
    WaitLeads(s1, t, s2);
    WithTwice(s, t, th2, None, th3, None);
    WaitLeads(s2, t, r);
    Leads(s, t, s1, s2);
    Leads(s, t, s2, r);
  }

  // ---------------------------------------------------------------- the copy

  /** Nobody who slept on a queue is left asleep there. */
  ghost predicate NobodyAsleep(r: State, t: Tid, side: Side) {
    forall u :: u in r.threads && u != t && r.threads[u].queue == Some(side) ==> r.threads[u].run.Running?
  }

  /** The read has handed out min(n, len) bytes from the front, and the rest has moved up. */
  ghost predicate HandedOut(s: State, r: State, t: Tid, n: int, before: seq<Event>) {
    var k := if n < s.len then n else s.len;
    && 0 <= k <= s.len <= |s.mem| && |r.mem| == |s.mem|
    && Back(r, t, Count(k), before + [Got(t, s.mem[..k])])
    && r.len == s.len - k && r.mem[..r.len] == s.mem[k..s.len] && r.log == s.log + [Got(t, s.mem[..k])]
    && NobodyAsleep(r, t, Writer)
  }

  /** The write has put the first min(|bs|, 4096 - len) of its bytes at the back. */
  ghost predicate TakenIn(s: State, r: State, t: Tid, bs: seq<byte>, before: seq<Event>) {
    var k := if |bs| < HELLODEV_SIZE - s.len then |bs| else HELLODEV_SIZE - s.len;
    && 0 <= s.len <= |s.mem| == HELLODEV_SIZE && |r.mem| == |s.mem| && 0 <= k
    && Back(r, t, Count(k), before + [Put(t, bs[..k])])
    && r.len == s.len + k && r.mem[..r.len] == s.mem[..s.len] + bs[..k] && r.log == s.log + [Put(t, bs[..k])]
    && NobodyAsleep(r, t, Reader)
  }

  /** The wake-up at the end of the copy section. */
  lemma WakeLeads(s: State, t: Tid) returns (r: State)
    requires t in s.threads && s.threads[t].pc.Wake?
    ensures LeadsTo(s, t, r) && SameBytes(s, r) && r.holder == s.holder && t in r.threads
    ensures var th := s.threads[t]; r.threads[t] == th.(ret := Count(th.count), pc := Unlock(th.pc.side))
    ensures NobodyAsleep(r, t, Other(s.threads[t].pc.side))
  {
    r := GoMove(s, t, s.threads[t]);
    MoveLeads(s, t, r);
  }

  /** Copy, shift and the change of the length in a read. */
  lemma ReadMoves(s: State, t: Tid)
    requires MemOk(s) && t in s.threads && s.holder == Some(t) && s.threads[t].pc == Copy(Reader) && 0 <= s.threads[t].count
    ensures
      var th := s.threads[t];
      var k := Min(th.count, s.len);
      LeadsTo(s, t, With(s, t, th.(count := k, data := s.mem[..k], pc := Wake(Reader)), Some(t))
                    .(mem := Shifted(s.mem, k, s.len), len := s.len - k, log := s.log + [Got(t, s.mem[..k])]))
  {
    var th := s.threads[t];
    var k := Min(th.count, s.len);
    var th1 := th.(count := k, data := s.mem[..k], pc := Shift);
    var th2, th3 := th1.(pc := Shrink), th1.(pc := Wake(Reader));
    var s1 := With(s, t, th1, Some(t));
    var s2 := With(s, t, th2, Some(t)).(mem := Shifted(s.mem, k, s.len));
    var s3 := With(s, t, th3, Some(t)).(mem := Shifted(s.mem, k, s.len), len := s.len - k, log := s.log + [Got(t, s.mem[..k])]);
    MoveLeads(s, t, s1);
    WithTwice(s, t, th1, Some(t), th2, Some(t));
    MoveLeads(s1, t, s2);
    WithTwice(s, t, th2, Some(t), th3, Some(t));
    MoveLeads(s2, t, s3);
    Leads(s, t, s1, s2);
    Leads(s, t, s2, s3);
  }

  /** A served read, from its copy on. */
  lemma ReadServed(s: State, t: Tid) returns (r: State)
    requires MemOk(s) && t in s.threads && s.holder == Some(t) && s.threads[t].pc == Copy(Reader) && 0 <= s.threads[t].count
    ensures LeadsTo(s, t, r) && HandedOut(s, r, t, s.threads[t].count, s.threads[t].returned)
  {
    var th := s.threads[t];
    var k := Min(th.count, s.len);
    ReadMoves(s, t);
    var s3 := With(s, t, th.(count := k, data := s.mem[..k], pc := Wake(Reader)), Some(t))
              .(mem := Shifted(s.mem, k, s.len), len := s.len - k, log := s.log + [Got(t, s.mem[..k])]);
    var s4 := WakeLeads(s3, t);
    UnlockAndLeave(s4, t);
    r := With(s4, t, Gone(s4.threads[t], th.returned + [Got(t, s.mem[..k])]), None);
    Leads(s, t, s3, s4);
    Leads(s, t, s4, r);
    ShiftedFront(s.mem, k, s.len);
  }

  lemma WriteMoves(s: State, t: Tid)
    requires MemOk(s) && t in s.threads && s.holder == Some(t) && s.threads[t].pc == Copy(Writer)
    requires s.threads[t].count == |s.threads[t].data|
    ensures
      var th := s.threads[t];
      var k := Min(|th.data|, HELLODEV_SIZE - s.len);
      LeadsTo(s, t, With(s, t, th.(count := k, data := th.data[..k], pc := Wake(Writer)), Some(t))
                    .(mem := Splice(s.mem, s.len, th.data[..k]), len := s.len + k, log := s.log + [Put(t, th.data[..k])]))
  {
    var th := s.threads[t];
    var k := Min(|th.data|, HELLODEV_SIZE - s.len);
    var th1 := th.(count := k, data := th.data[..k], pc := Grow);
    var th2 := th1.(pc := Wake(Writer));
    var mem := Splice(s.mem, s.len, th.data[..k]);
    var s1 := With(s, t, th1, Some(t)).(mem := mem);
    var s2 := With(s, t, th2, Some(t)).(mem := mem, len := s.len + k, log := s.log + [Put(t, th.data[..k])]);
    MoveLeads(s, t, s1);
    WithTwice(s, t, th1, Some(t), th2, Some(t));
    MoveLeads(s1, t, s2);
    Leads(s, t, s1, s2);
  }

  lemma SplicedBack(m: seq<byte>, at: nat, bs: seq<byte>)
    requires at + |bs| <= |m|
    ensures Splice(m, at, bs)[..at + |bs|] == m[..at] + bs
  {
  }

  lemma WriteServed(s: State, t: Tid) returns (r: State)
    requires MemOk(s) && t in s.threads && s.holder == Some(t) && s.threads[t].pc == Copy(Writer)
    requires s.threads[t].count == |s.threads[t].data|
    ensures LeadsTo(s, t, r) && TakenIn(s, r, t, s.threads[t].data, s.threads[t].returned)
  {
    var th := s.threads[t];
    var k := Min(|th.data|, HELLODEV_SIZE - s.len);
    WriteMoves(s, t);
    var s2 := With(s, t, th.(count := k, data := th.data[..k], pc := Wake(Writer)), Some(t))
              .(mem := Splice(s.mem, s.len, th.data[..k]), len := s.len + k, log := s.log + [Put(t, th.data[..k])]);
    var s3 := WakeLeads(s2, t);
    UnlockAndLeave(s3, t);
    r := With(s3, t, Gone(s3.threads[t], th.returned + [Put(t, th.data[..k])]), None);
    Leads(s, t, s2, s3);
    Leads(s, t, s3, r);
    SplicedBack(s.mem, s.len, th.data[..k]);
  }

  // ---------------------------------------------------------------- calls that run alone

  /** The thread sleeps on the queue, and its own code cannot go on. */
  predicate SleepsOn(s: State, r: State, t: Tid, side: Side) {
    && t in r.threads && Asleep(r.threads[t]) && r.threads[t].queue == Some(side) && Step(r, t, Go) == r
    && r.holder.None? && SameBytes(s, r)
  }

  /** A call that cannot be served changes no byte: a non-blocking one gets -EAGAIN, a blocking one sleeps, or gets
      -ERESTARTSYS if a signal is pending. */
  predicate NotServed(s: State, r: State, t: Tid, side: Side, nb: bool)
    requires t in s.threads
  {
    var th := s.threads[t];
    if nb then Back(r, t, EAgain, th.returned) && SameBytes(s, r)
    else if th.signal then Back(r, t, ERestartSys, th.returned) && SameBytes(s, r)
    else SleepsOn(s, r, t, side)
  }

  lemma NotServedLeads(s: State, t: Tid) returns (r: State)
    requires t in s.threads && s.holder == Some(t) && s.threads[t].pc.Test?
    requires Blocked(s.threads[t].pc.side, s.len) && s.threads[t].queue == Some(s.threads[t].pc.side)
    ensures LeadsTo(s, t, r) && NotServed(s, r, t, s.threads[t].pc.side, s.threads[t].nonblock)
  {
    if s.threads[t].nonblock {
      r := Refused(s, t);
    } else {
      var m := GoesUnder(s, t);
      r := m;
      if s.threads[t].signal {
        r := SignalledOut(m, t);
        Leads(s, t, m, r);
      }
    }
  }

  /** A call that can be served, from its test on. */
  lemma ServedLeads(s: State, t: Tid) returns (r: State)
    requires MemOk(s) && t in s.threads && s.holder == Some(t) && s.threads[t].pc.Test?
    requires !Blocked(s.threads[t].pc.side, s.len) && 0 <= s.threads[t].count
    requires s.threads[t].pc.side.Writer? ==> s.threads[t].count == |s.threads[t].data|
    ensures LeadsTo(s, t, r)
    ensures s.threads[t].pc.side.Reader? ==> HandedOut(s, r, t, s.threads[t].count, s.threads[t].returned)
    ensures s.threads[t].pc.side.Writer? ==> TakenIn(s, r, t, s.threads[t].data, s.threads[t].returned)
  {
    var side := s.threads[t].pc.side;
    var m := Set(s, t, s.threads[t].(pc := Copy(side)));
    WaitLeads(s, t, m);
    if side.Reader? {
      r := ReadServed(m, t);
    } else {
      r := WriteServed(m, t);
    }
    Leads(s, t, m, r);
  }

  /** A read call that nobody interrupts. With bytes there it returns min(n, len), hands out exactly so many bytes from
      the front and leaves the rest, and wakes the writers. Without bytes it is not served. */
  lemma ReadCall(s: State, t: Tid, n: nat, nb: bool) returns (r: State)
    requires Inv(s) && s.holder.None? && t in s.threads && s.threads[t].pc.Idle?
    ensures LeadsTo(Step(s, t, CallRead(n, nb)), t, r)
    ensures s.len > 0 ==> HandedOut(s, r, t, n, s.threads[t].returned)
    ensures s.len == 0 ==> NotServed(s, r, t, Reader, nb)
  {
    var call := Step(s, t, CallRead(n, nb));
    ReadEnters(s, t, n, nb);
    var th := Entered(s.threads[t], Reader, n, [], nb);
    var s2 := With(s, t, th, Some(t));
    if s.len > 0 {
      r := ServedLeads(s2, t);
    } else {
      r := NotServedLeads(s2, t);
    }
    Leads(call, t, s2, r);
  }

  /** A write call that nobody interrupts. With room it returns min(|bs|, 4096 - len), puts exactly so many of its bytes
      at the back, and wakes the readers. Without room it is not served. */
  lemma WriteCall(s: State, t: Tid, bs: seq<byte>, nb: bool) returns (r: State)
    requires Inv(s) && s.holder.None? && t in s.threads && s.threads[t].pc.Idle?
    ensures LeadsTo(Step(s, t, CallWrite(bs, nb)), t, r)
    ensures s.len < HELLODEV_SIZE ==> TakenIn(s, r, t, bs, s.threads[t].returned)
    ensures s.len == HELLODEV_SIZE ==> NotServed(s, r, t, Writer, nb)
  {
    var call := Step(s, t, CallWrite(bs, nb));
    WriteEnters(s, t, bs, nb);
    var th := Entered(s.threads[t], Writer, |bs|, bs, nb);
    var s2 := With(s, t, th, Some(t));
    if s.len < HELLODEV_SIZE {
      r := ServedLeads(s2, t);
    } else {
      r := NotServedLeads(s2, t);
    }
    Leads(call, t, s2, r);
  }

  lemma ClearLeads(s: State, t: Tid) returns (r: State)
    requires s.holder.None? && t in s.threads && s.threads[t].pc.Idle?
    ensures LeadsTo(Step(s, t, CallIoctl(MEM_CLEAR)), t, r)
    ensures r == With(s, t, s.threads[t].(ret := Count(0)), None)
                 .(mem := Zeros(HELLODEV_SIZE), log := s.log + [Cleared(t)])
  {
    var th := s.threads[t];
    var th0, th1, th2, th3 := th.(pc := ClearLock), th.(pc := Clear), th.(pc := ClearUnlock), th.(ret := Count(0));
    var call, s1 := With(s, t, th0, None), With(s, t, th1, Some(t));
    assert Step(s, t, CallIoctl(MEM_CLEAR)) == call;
    WithTwice(s, t, th0, None, th1, Some(t));
    OtherLeads(call, t, s1);
    var s2 := With(s, t, th2, Some(t)).(mem := Zeros(HELLODEV_SIZE), log := s.log + [Cleared(t)]);
    WithTwice(s, t, th1, Some(t), th2, Some(t));
    OtherLeads(s1, t, s2);
    r := With(s, t, th3, None).(mem := Zeros(HELLODEV_SIZE), log := s.log + [Cleared(t)]);
    WithTwice(s, t, th2, Some(t), th3, None);
    OtherLeads(s2, t, r);
    Leads(call, t, s1, s2);
    Leads(call, t, s2, r);
  }

  /** MEM_CLEAR makes every byte zero, keeps the length and returns 0. */
  lemma ClearCall(s: State, t: Tid) returns (r: State)
    requires Inv(s) && s.holder.None? && t in s.threads && s.threads[t].pc.Idle?
    ensures LeadsTo(Step(s, t, CallIoctl(MEM_CLEAR)), t, r) && Back(r, t, Count(0), s.threads[t].returned)
    ensures |r.mem| == HELLODEV_SIZE && forall i :: 0 <= i < |r.mem| ==> r.mem[i] == 0
    ensures r.len == s.len && r.log == s.log + [Cleared(t)]
  {
    assert ThreadOk(s.mem, s.len, s.threads[t]);
    r := ClearLeads(s, t);
  }

  /** Every other command fails at once and changes nothing but the thread's own result, whoever holds the mutex. */
  lemma OtherCommand(s: State, t: Tid, cmd: nat)
    requires t in s.threads && s.threads[t].pc.Idle? && cmd != MEM_CLEAR
    ensures Step(s, t, CallIoctl(cmd)) == With(s, t, s.threads[t].(ret := EInval), s.holder)
  {
  }

  lemma PollMasks(s: State, t: Tid) returns (r: State)
    requires s.holder.None? && t in s.threads && s.threads[t].pc.Idle?
    ensures LeadsTo(Step(s, t, CallPoll), t, r) && t in r.threads
    ensures r.threads[t].ret == Mask(s.len != 0, s.len != HELLODEV_SIZE)
  {
    var th := s.threads[t];
    var th0, th1 := th.(pc := PollLock), th.(pc := PollMask);
    var th2 := th.(ret := Mask(s.len != 0, s.len != HELLODEV_SIZE), pc := PollRelock);
    var call, s1 := With(s, t, th0, None), With(s, t, th1, Some(t));
    assert Step(s, t, CallPoll) == call;
    WithTwice(s, t, th0, None, th1, Some(t));
    OtherLeads(call, t, s1);
    r := With(s, t, th2, Some(t));
    WithTwice(s, t, th1, Some(t), th2, Some(t));
    OtherLeads(s1, t, r);
    Leads(call, t, s1, r);
  }

  /** The mask of poll tells exactly whether a non-blocking read or write in its place would be served. */
  lemma PollAnswers(s: State, t: Tid, n: nat, bs: seq<byte>) returns (r: State, read: State, write: State)
    requires Inv(s) && s.holder.None? && t in s.threads && s.threads[t].pc.Idle?
    ensures LeadsTo(Step(s, t, CallPoll), t, r) && t in r.threads && r.threads[t].ret.Mask?
    ensures LeadsTo(Step(s, t, CallRead(n, true)), t, read) && LeadsTo(Step(s, t, CallWrite(bs, true)), t, write)
    ensures if r.threads[t].ret.pollIn then HandedOut(s, read, t, n, s.threads[t].returned)
            else Back(read, t, EAgain, s.threads[t].returned)
    ensures if r.threads[t].ret.pollOut then TakenIn(s, write, t, bs, s.threads[t].returned)
            else Back(write, t, EAgain, s.threads[t].returned)
  {
    r := PollMasks(s, t);
    read := ReadCall(s, t, n, true);
    write := WriteCall(s, t, bs, true);
  }

  /** A copy that fails gets the call out with -EFAULT, without an event, and leaves the bytes in the FIFO alone. */
  lemma FaultGetsOut(s: State, t: Tid, junk: seq<byte>) returns (r: State)
    requires MemOk(s) && t in s.threads && s.holder == Some(t) && s.threads[t].pc.Copy?
    requires s.threads[t].pc.side.Writer? ==> |junk| <= Min(s.threads[t].count, HELLODEV_SIZE - s.len)
    ensures LeadsTo(Step(s, t, Fault(junk)), t, r) && Back(r, t, EFault, s.threads[t].returned)
    ensures r.len == s.len && r.log == s.log && |r.mem| == |s.mem| && r.mem[..s.len] == s.mem[..s.len]
  {
    var th := s.threads[t];
    var th1 := th.(ret := EFault, pc := Unlock(th.pc.side));
    var s1 := Step(s, t, Fault(junk));
    assert s1 == With(s, t, th1, Some(t)).(mem := s1.mem);
    assert s1.mem[..s.len] == s.mem[..s.len];
    UnlockAndLeave(s1, t);
    r := With(s1, t, Gone(th1, th.returned + []), None);
  }

  // ---------------------------------------------------------------- calls under any schedule

  function SideOf(a: Action): (r: Side) {
    if a.CallRead? then Reader else Writer
  }

  predicate IsTransfer(a: Action) {
    a.CallRead? || a.CallWrite?
  }

  /** Bytes that the call may have moved: no more than asked for, or the front of what was given, and some if any. */
  predicate Moved(a: Action, data: seq<byte>)
    requires IsTransfer(a)
  {
    if a.CallRead? then |data| <= a.count && (a.count > 0 ==> data != [])
    else data <= a.data && (a.data != [] ==> data != [])
  }

  /** The call's arguments, untouched in the thread. */
  predicate Asks(th: Thread, a: Action)
    requires IsTransfer(a)
  {
    th.nonblock == a.nonblock && if a.CallRead? then th.count == a.count else th.count == |a.data| && th.data == a.data
  }

  /** What the call has come to: a count, with the bytes that it stands for, or an error that its arguments allow. */
  predicate Settled(th: Thread, a: Action)
    requires IsTransfer(a)
  {
    match th.ret
    case Count(k) => k == |th.data| && Moved(a, th.data)
    case EAgain => a.nonblock
    case ERestartSys => !a.nonblock
    case EFault => true
    case _ => false
  }

  predicate BeforeCopy(pc: Pc) {
    pc.Lock? || pc.Enqueue? || pc.Test? || pc.Doze? || pc.Schedule? || pc.SignalTest? || pc.Relock? || pc.Copy?
  }

  /** The thread is serving the call `a`, which began when it had reported `before`; or it has served it. */
  predicate Serving(t: Tid, th: Thread, a: Action, before: seq<Event>)
    requires IsTransfer(a)
  {
    if th.pc.Idle? then
      && Settled(th, a)
      && th.returned == before + if th.ret.Count? then [if a.CallRead? then Got(t, th.data) else Put(t, th.data)] else []
    else
      && th.returned == before
      && if BeforeCopy(th.pc) then th.pc.side == SideOf(a) && Asks(th, a)
         else if th.pc.Unlock? || th.pc.Leave? then th.pc.side == SideOf(a) && Settled(th, a)
         else if th.pc.Wake? then th.pc.side == SideOf(a) && Moved(a, th.data)
         else (if a.CallRead? then th.pc.Shift? || th.pc.Shrink? else th.pc.Grow?) && Moved(a, th.data)
  }

  lemma ServingByCopy(s: State, t: Tid, a: Action, before: seq<Event>)
    requires IsTransfer(a) && t in s.threads && s.threads[t].pc.Copy?
    requires MemOk(s) && ThreadOk(s.mem, s.len, s.threads[t]) && Serving(t, s.threads[t], a, before)
    ensures var r := GoMove(s, t, s.threads[t]); t in r.threads && Serving(t, r.threads[t], a, before)
  {
  }

  lemma ServingByMove(s: State, t: Tid, a: Action, before: seq<Event>)
    requires IsTransfer(a) && t in s.threads && InMove(s.threads[t].pc) && !s.threads[t].pc.Copy?
    requires ThreadOk(s.mem, s.len, s.threads[t]) && Serving(t, s.threads[t], a, before)
    ensures var r := GoMove(s, t, s.threads[t]); t in r.threads && Serving(t, r.threads[t], a, before)
  {
  }

  lemma ServingByWait(s: State, t: Tid, a: Action, before: seq<Event>)
    requires IsTransfer(a) && t in s.threads && BeforeCopy(s.threads[t].pc) && !s.threads[t].pc.Copy?
    requires ThreadOk(s.mem, s.len, s.threads[t]) && Serving(t, s.threads[t], a, before)
    ensures var r := GoWait(s, t, s.threads[t]); t in r.threads && Serving(t, r.threads[t], a, before)
  {
  }

  lemma ServingOut(s: State, t: Tid, a: Action, before: seq<Event>)
    requires IsTransfer(a) && t in s.threads && !InMove(s.threads[t].pc) && !BeforeCopy(s.threads[t].pc)
    requires Serving(t, s.threads[t], a, before)
    ensures var r := GoWait(s, t, s.threads[t]); t in r.threads && Serving(t, r.threads[t], a, before)
  {
  }

  lemma ServingByRest(s: State, t: Tid, b: Action, a: Action, before: seq<Event>)
    requires IsTransfer(a) && t in s.threads && (b.Fault? || b.Signal?)
    requires Serving(t, s.threads[t], a, before)
    ensures var r := Step(s, t, b); t in r.threads && Serving(t, r.threads[t], a, before)
  {
  }

  lemma ServingKept(s: State, u: Tid, b: Action, t: Tid, a: Action, before: seq<Event>)
    requires IsTransfer(a) && Inv(s) && t in s.threads && (u == t ==> !IsCall(b))
    requires Serving(t, s.threads[t], a, before)
    ensures var r := Step(s, u, b); t in r.threads && Serving(t, r.threads[t], a, before)
  {
    assert ThreadOk(s.mem, s.len, s.threads[t]);
    if u != t {
      OthersKept(s, u, b, t);
    } else if !b.Go? {
      ServingByRest(s, t, b, a, before);
    } else if s.threads[t].pc.Copy? {
      ServingByCopy(s, t, a, before);
    } else if InMove(s.threads[t].pc) {
      ServingByMove(s, t, a, before);
    } else if BeforeCopy(s.threads[t].pc) {
      ServingByWait(s, t, a, before);
    } else {
      ServingOut(s, t, a, before);
    }
  }

  /** The thread makes no further call in the schedule. */
  ghost predicate OneCall(schedule: seq<(Tid, Action)>, t: Tid) {
    forall i :: 0 <= i < |schedule| && schedule[i].0 == t ==> !IsCall(schedule[i].1)
  }

  lemma {:induction false} ServingRun(s: State, schedule: seq<(Tid, Action)>, t: Tid, a: Action, before: seq<Event>)
    requires IsTransfer(a) && Inv(s) && t in s.threads && OneCall(schedule, t)
    requires Serving(t, s.threads[t], a, before)
    ensures var r := Execute(s, schedule); Inv(r) && t in r.threads && Serving(t, r.threads[t], a, before)
    decreases schedule
  {
    if schedule != [] {
      ServingKept(s, schedule[0].0, schedule[0].1, t, a, before);
      StepKept(s, schedule[0].0, schedule[0].1);
      assert OneCall(schedule[1..], t) by {
        assert forall i :: 0 < i < |schedule| ==> schedule[i] == schedule[1..][i - 1];
      }
      ServingRun(Step(s, schedule[0].0, schedule[0].1), schedule[1..], t, a, before);
    }
  }

  lemma ServingStarts(s: State, t: Tid, a: Action)
    requires t in s.threads && s.threads[t].pc.Idle? && IsTransfer(a)
    ensures var r := Step(s, t, a); t in r.threads && Serving(t, r.threads[t], a, s.threads[t].returned)
  {
  }

  /** Under every schedule a call serves its own arguments: up to the copy they stand in the thread untouched; and when
      the call is back, it has returned a count together with the event of exactly so many bytes, at most as many as were
      asked for (a front part of what was given), or -EAGAIN if it is non-blocking, -ERESTARTSYS if it is blocking, or
      -EFAULT, and then no event. */
  lemma CallServesItsArguments(s: State, t: Tid, a: Action, schedule: seq<(Tid, Action)>)
    requires Reachable(s) && t in s.threads && s.threads[t].pc.Idle? && IsTransfer(a) && OneCall(schedule, t)
    ensures
      var r := Execute(Step(s, t, a), schedule);
      && Inv(r) && t in r.threads && Serving(t, r.threads[t], a, s.threads[t].returned)
      && (BeforeCopy(r.threads[t].pc) ==> Asks(r.threads[t], a))
  {
    ReachableInv(s);
    StepKept(s, t, a);
    ServingStarts(s, t, a);
    ServingRun(Step(s, t, a), schedule, t, a, s.threads[t].returned);
  }

  /** So a read that has waited under any schedule hands out, once it copies, min(n, pending) bytes for its own `n`. */
  lemma ReadDeliversWhatWasAsked(s: State, t: Tid, n: nat, nb: bool, schedule: seq<(Tid, Action)>) returns (r: State)
    requires Reachable(s) && t in s.threads && s.threads[t].pc.Idle? && OneCall(schedule, t)
    ensures
      var m := Execute(Step(s, t, CallRead(n, nb)), schedule);
      t in m.threads && m.threads[t].pc.Copy? ==>
        0 < m.len && LeadsTo(m, t, r) && HandedOut(m, r, t, n, s.threads[t].returned)
  {
    CallServesItsArguments(s, t, CallRead(n, nb), schedule);
    r := Execute(Step(s, t, CallRead(n, nb)), schedule);
    if r.threads[t].pc.Copy? {
      OwnerFacts(r, t);
      r := ReadServed(r, t);
    }
  }

  /** And a write that has waited stores the front of its own bytes, as much as there is room for. */
  lemma WriteStoresWhatWasGiven(s: State, t: Tid, bs: seq<byte>, nb: bool, schedule: seq<(Tid, Action)>) returns (r: State)
    requires Reachable(s) && t in s.threads && s.threads[t].pc.Idle? && OneCall(schedule, t)
    ensures
      var m := Execute(Step(s, t, CallWrite(bs, nb)), schedule);
      t in m.threads && m.threads[t].pc.Copy? ==>
        m.len < HELLODEV_SIZE && LeadsTo(m, t, r) && TakenIn(m, r, t, bs, s.threads[t].returned)
  {
    CallServesItsArguments(s, t, CallWrite(bs, nb), schedule);
    r := Execute(Step(s, t, CallWrite(bs, nb)), schedule);
    if r.threads[t].pc.Copy? {
      OwnerFacts(r, t);
      r := WriteServed(r, t);
    }
  }
}
