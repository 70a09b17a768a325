/** The blocking byte FIFO of src/globalfifo/main.c, as a step relation over any number of threads.

    One step is what one thread does between two points where another thread may run: taking or
    releasing the mutex, changing its own run state, calling schedule, copying to or from user space,
    moving the buffer, changing current_len, waking a queue. A schedule is any list of (thread, action)
    pairs; an action that is not enabled leaves the state as it is, which is a thread that stays blocked. */
module GlobalFifo {
  import opened Options
  import opened Bytes

  const HELLODEV_SIZE := 0x1000
  const MEM_CLEAR := 0x1

  type Tid = nat

  /** hello_read and hello_write have the same skeleton; the side says which one a thread is in. */
  datatype Side = Reader | Writer

  datatype RunState = Running | Interruptible

  datatype Outcome =
    | NoResult | Count(n: int) | EAgain | EFault | ERestartSys | EInval | Mask(pollIn: bool, pollOut: bool)

  /** Where a thread stands: the line that it executes next. */
  datatype Pc =
    | Idle                    // outside the driver
    | Lock(side: Side)        // 70, 121
    | Enqueue(side: Side)     // 71, 122
    | Test(side: Side)        // 73-78, 124-129
    | Doze(side: Side)        // 79, 131: interruptible, still holding the mutex
    | Schedule(side: Side)    // 81, 133
    | SignalTest(side: Side)  // 82, 134
    | Relock(side: Side)      // 87, 139
    | Copy(side: Side)        // 90-93, 142-145
    | Shift                   // 97
    | Shrink                  // 98
    | Grow                    // 149
    | Wake(side: Side)        // 101, 153: in the read (write) call, wake the writers (readers)
    | Unlock(side: Side)      // 107, 159
    | Leave(side: Side)       // 109-111, 161-164
    | ClearLock | Clear | ClearUnlock     // 50, 51, 52
    | PollLock | PollMask | PollRelock    // 172, 174-183, 185

  /** What one successful call did to the FIFO. */
  datatype Event = Put(who: Tid, bytes: seq<byte>) | Got(who: Tid, bytes: seq<byte>) | Cleared(who: Tid)

  /** `data` is the caller's user-space buffer: the source of a write (from the copy on, the part of it that was
      copied), the destination of a read.
      `returned` lists what the thread's successful calls have reported to their caller so far. */
  datatype Thread = Thread(pc: Pc, run: RunState, queue: Option<Side>, nonblock: bool, signal: bool,
                           count: int, data: seq<byte>, ret: Outcome, returned: seq<Event>)

  /** `log` lists the events in the order in which they were made under the mutex. */
  datatype State = State(mem: seq<byte>, len: int, holder: Option<Tid>, threads: map<Tid, Thread>, log: seq<Event>)

  datatype Action =
    | CallRead(count: nat, nonblock: bool)
    | CallWrite(data: seq<byte>, nonblock: bool)
    | CallIoctl(cmd: nat)
    | CallPoll
    | Go                        // the next step of the thread's code
    | Fault(junk: seq<byte>)    // the copy at line 93 or 145 fails, leaving junk behind
    | Signal                    // a signal is delivered to the thread

  const Fresh := Thread(Idle, Running, None, false, false, 0, [], NoResult, [])

  function Init(tids: set<Tid>): (s: State) {
    State(Zeros(HELLODEV_SIZE), 0, None, map t | t in tids :: Fresh, [])
  }

  // ---------------------------------------------------------------- the steps

  /** A reader must wait on an empty buffer, a writer on a full one. */
  predicate Blocked(side: Side, len: int) {
    match side
    case Reader => len == 0
    case Writer => len == HELLODEV_SIZE
  }

  function Other(side: Side): (r: Side) {
    if side.Reader? then Writer else Reader
  }

  /** The in-place move of line 97: `len - count` bytes come down from offset `count` to offset 0. */
  function Shifted(m: seq<byte>, count: int, len: int): (r: seq<byte>)
    ensures |r| == |m|
  {
    if 0 <= count <= len <= |m| then m[count..len] + m[len - count..] else m
  }

  /** wake_up_interruptible: every interruptible task on the queue becomes runnable. */
  function Woken(threads: map<Tid, Thread>, side: Side): (r: map<Tid, Thread>) {
    map u | u in threads ::
      if threads[u].queue == Some(side) && threads[u].run == Interruptible then threads[u].(run := Running)
      else threads[u]
  }

  function Set(s: State, t: Tid, th: Thread): (r: State) {
    s.(threads := s.threads[t := th])
  }

  /** The next step of the code of a thread that is in hello_read or hello_write outside the copy section. */
  function GoWait(s: State, t: Tid, th: Thread): (r: State) {
    match th.pc
    case Lock(side) => if s.holder.None? then Set(s, t, th.(pc := Enqueue(side))).(holder := Some(t)) else s
    case Enqueue(side) => Set(s, t, th.(queue := Some(side), pc := Test(side)))
    case Test(side) =>
      if !Blocked(side, s.len) then Set(s, t, th.(pc := Copy(side)))
      else if th.nonblock then Set(s, t, th.(ret := EAgain, pc := Unlock(side)))
      else Set(s, t, th.(run := Interruptible, pc := Doze(side)))
    case Doze(side) => Set(s, t, th.(pc := Schedule(side))).(holder := None)
    case Schedule(side) =>
      if th.run.Running? || th.signal then Set(s, t, th.(run := Running, pc := SignalTest(side))) else s
    case SignalTest(side) =>
      if th.signal then Set(s, t, th.(ret := ERestartSys, pc := Leave(side))) else Set(s, t, th.(pc := Relock(side)))
    case Relock(side) => if s.holder.None? then Set(s, t, th.(pc := Test(side))).(holder := Some(t)) else s
    case Unlock(side) => Set(s, t, th.(pc := Leave(side))).(holder := None)
    case Leave(side) =>
      Set(s, t, th.(queue := None, run := Running, signal := false, pc := Idle, returned := th.returned + Report(t, th)))
    case _ => s
  }

  /** The next step of the code between the wait loop and the unlock. */
  function GoMove(s: State, t: Tid, th: Thread): (r: State) {
    match th.pc
    case Copy(Reader) =>
      var n := Min(th.count, s.len);
      Set(s, t, th.(count := n, data := Slice(s.mem, 0, n), pc := Shift))
    case Copy(Writer) =>
      var n := Min(th.count, HELLODEV_SIZE - s.len);
      Set(s, t, th.(count := n, data := Slice(th.data, 0, n), pc := Grow))
      .(mem := Splice(s.mem, s.len, Slice(th.data, 0, n)))
    case Shift => Set(s, t, th.(pc := Shrink)).(mem := Shifted(s.mem, th.count, s.len))
    case Shrink => Set(s, t, th.(pc := Wake(Reader))).(len := s.len - th.count, log := s.log + [Got(t, th.data)])
    case Grow => Set(s, t, th.(pc := Wake(Writer))).(len := s.len + th.count, log := s.log + [Put(t, th.data)])
    case Wake(side) =>
      var s1 := s.(threads := Woken(s.threads, Other(side)));
      Set(s1, t, th.(ret := Count(th.count), pc := Unlock(side)))
    case _ => s
  }

  /** The next step of the code of hello_ioctl and hello_poll. Line 185 takes the mutex a second time. */
  function GoOther(s: State, t: Tid, th: Thread): (r: State) {
    match th.pc
    case ClearLock => if s.holder.None? then Set(s, t, th.(pc := Clear)).(holder := Some(t)) else s
    case Clear => Set(s, t, th.(pc := ClearUnlock)).(mem := Zeros(HELLODEV_SIZE), log := s.log + [Cleared(t)])
    case ClearUnlock => Set(s, t, th.(ret := Count(0), pc := Idle)).(holder := None)
    case PollLock => if s.holder.None? then Set(s, t, th.(pc := PollMask)).(holder := Some(t)) else s
    case PollMask => Set(s, t, th.(ret := Mask(s.len != 0, s.len != HELLODEV_SIZE), pc := PollRelock))
    case PollRelock => if s.holder.None? then Set(s, t, th.(pc := Idle)).(holder := Some(t)) else s
    case _ => s
  }

  /** What a call that leaves reports to its caller. */
  function Report(t: Tid, th: Thread): (r: seq<Event>) {
    if th.ret.Count? && th.pc.Leave? then [if th.pc.side.Reader? then Got(t, th.data) else Put(t, th.data)] else []
  }

  function GoStep(s: State, t: Tid, th: Thread): (r: State) {
    if InMove(th.pc) then GoMove(s, t, th) else if InOther(th.pc) then GoOther(s, t, th) else GoWait(s, t, th)
  }

  /** A failed copy: a read returns with the buffer as it was, a write may have left junk past current_len. */
  function FaultStep(s: State, t: Tid, th: Thread, junk: seq<byte>): (r: State) {
    match th.pc
    case Copy(Reader) => Set(s, t, th.(ret := EFault, pc := Unlock(Reader)))
    case Copy(Writer) =>
      if |junk| <= Min(th.count, HELLODEV_SIZE - s.len)
      then Set(s, t, th.(ret := EFault, pc := Unlock(Writer))).(mem := Splice(s.mem, s.len, junk))
      else s
    case _ => s
  }

  /** Entering the driver: only from outside it. */
  function CallStep(s: State, t: Tid, th: Thread, a: Action): (r: State) {
    if !th.pc.Idle? then s else
    match a
    case CallRead(n, nb) => Set(s, t, th.(pc := Lock(Reader), count := n, nonblock := nb, data := [], ret := NoResult))
    case CallWrite(bs, nb) => Set(s, t, th.(pc := Lock(Writer), count := |bs|, nonblock := nb, data := bs, ret := NoResult))
    case CallIoctl(cmd) => Set(s, t, if cmd == MEM_CLEAR then th.(pc := ClearLock) else th.(ret := EInval))
    case CallPoll => Set(s, t, th.(pc := PollLock))
    case _ => s
  }

  function Step(s: State, t: Tid, a: Action): (r: State) {
    if t !in s.threads then s else
    var th := s.threads[t];
    match a
    case Go => GoStep(s, t, th)
    case Fault(junk) => FaultStep(s, t, th, junk)
    case Signal => Set(s, t, th.(signal := true, run := Running))
    case _ => CallStep(s, t, th, a)
  }

  /** A whole run: any schedule of any threads. */
  function Execute(s: State, schedule: seq<(Tid, Action)>): (r: State)
    decreases schedule
  {
    if schedule == [] then s
    else Execute(Step(s, schedule[0].0, schedule[0].1), schedule[1..])
  }

  predicate InMove(pc: Pc) {
    pc.Copy? || pc.Shift? || pc.Shrink? || pc.Grow? || pc.Wake?
  }

  predicate InOther(pc: Pc) {
    pc.ClearLock? || pc.Clear? || pc.ClearUnlock? || InPoll(pc)
  }

  predicate InPoll(pc: Pc) {
    pc.PollLock? || pc.PollMask? || pc.PollRelock?
  }

  /** The program points at which a thread owns the mutex. */
  predicate Critical(pc: Pc) {
    pc.Enqueue? || pc.Test? || pc.Doze? || InMove(pc) || pc.Unlock? || pc.Clear? || pc.ClearUnlock?
    || pc.PollMask? || pc.PollRelock?
  }

  // ---------------------------------------------------------------- the abstract FIFO

  /** The queue of bytes that a sequential FIFO holds after the events of `log`. */
  function Replay(log: seq<Event>): (r: seq<byte>) {
    if log == [] then [] else Apply(Replay(log[..|log| - 1]), log[|log| - 1])
  }

  function Apply(q: seq<byte>, e: Event): (r: seq<byte>) {
    match e
    case Put(_, bs) => q + bs
    case Got(_, bs) => if |bs| <= |q| then q[|bs|..] else []
    case Cleared(_) => Zeros(|q|)
  }

  /** The event is one that a FIFO of the device's capacity allows when it holds `q`. */
  predicate Allowed(q: seq<byte>, e: Event) {
    match e
    case Put(_, bs) => |q| + |bs| <= HELLODEV_SIZE
    case Got(_, bs) => bs <= q
    case Cleared(_) => true
  }

  /** Every event was allowed when it was made. */
  predicate Legal(log: seq<Event>) {
    log == [] || (Legal(log[..|log| - 1]) && Allowed(Replay(log[..|log| - 1]), log[|log| - 1]))
  }

  function Accepted(log: seq<Event>): (r: seq<byte>) {
    if log == [] then [] else
    Accepted(log[..|log| - 1]) + (if log[|log| - 1].Put? then log[|log| - 1].bytes else [])
  }

  function Delivered(log: seq<Event>): (r: seq<byte>) {
    if log == [] then [] else
    Delivered(log[..|log| - 1]) + (if log[|log| - 1].Got? then log[|log| - 1].bytes else [])
  }

  /** The reads and writes of one thread, in order. */
  function EventsOf(log: seq<Event>, t: Tid): (r: seq<Event>) {
    if log == [] then [] else
    EventsOf(log[..|log| - 1], t)
    + (if !log[|log| - 1].Cleared? && log[|log| - 1].who == t then [log[|log| - 1]] else [])
  }

  // ---------------------------------------------------------------- the invariant

  /** The bytes that are in the FIFO. Between line 97 and line 98 the front ones are only in the reader's buffer. */
  function Pending(s: State): (r: seq<byte>) {
    if s.holder.Some? && s.holder.value in s.threads && s.threads[s.holder.value].pc.Shrink?
    then s.threads[s.holder.value].data + Slice(s.mem, 0, s.len - s.threads[s.holder.value].count)
    else Slice(s.mem, 0, s.len)
  }

  predicate MemOk(s: State) {
    |s.mem| == HELLODEV_SIZE && 0 <= s.len <= HELLODEV_SIZE
  }

  /** Mutual exclusion: the holder is exactly the thread whose code owns the mutex. */
  ghost predicate MutexOk(s: State) {
    && (s.holder.Some? ==> s.holder.value in s.threads)
    && forall t :: t in s.threads ==> (Critical(s.threads[t].pc) <==> s.holder == Some(t))
  }

  /** The locals of a call that has not yet copied. */
  predicate Entered(th: Thread, side: Side) {
    th.ret.NoResult? && (side.Writer? ==> |th.data| == th.count)
  }

  /** What a thread's locals say, given where it stands. */
  predicate ThreadOk(mem: seq<byte>, len: int, th: Thread) {
    && 0 <= th.count
    && (th.run.Interruptible? ==> th.pc.Doze? || th.pc.Schedule?)
    && match th.pc
       case Lock(side) => Entered(th, side) && th.queue.None?
       case Enqueue(side) => Entered(th, side) && th.queue.None?
       case Test(side) => Entered(th, side) && th.queue == Some(side)
       case Doze(side) => Entered(th, side) && th.queue == Some(side) && !th.nonblock
       case Schedule(side) => Entered(th, side) && th.queue == Some(side) && !th.nonblock
       case SignalTest(side) => Entered(th, side) && th.queue == Some(side) && !th.nonblock
       case Relock(side) => Entered(th, side) && th.queue == Some(side) && !th.nonblock
       case Copy(side) => Entered(th, side) && !Blocked(side, len)
       case Shift => |th.data| == th.count <= len && th.data == Slice(mem, 0, th.count)
       case Shrink => |th.data| == th.count <= len
       case Grow => |th.data| == th.count <= HELLODEV_SIZE - len && Slice(mem, len, len + th.count) == th.data
       case Wake(_) => |th.data| == th.count
       case Unlock(side) => (th.ret.EAgain? && th.nonblock && Blocked(side, len)) || th.ret.EFault? || th.ret == Count(|th.data|)
       case Leave(_) =>
         (th.ret.EAgain? && th.nonblock) || th.ret.EFault? || (th.ret.ERestartSys? && th.signal) || th.ret == Count(|th.data|)
       case _ => th.queue.None?
  }

  ghost predicate ThreadsOk(s: State) {
    forall t :: t in s.threads ==> ThreadOk(s.mem, s.len, s.threads[t])
  }

  /** Some thread has made room (or added bytes) and still owes the wake-up of the side. */
  predicate WakeOwed(s: State, side: Side) {
    s.holder.Some? && s.holder.value in s.threads && s.threads[s.holder.value].pc == Wake(Other(side))
  }

  /** If the thread sleeps on a queue, it has reason to, or its wake-up is on the way. */
  predicate SleepOk(s: State, th: Thread) {
    th.run.Interruptible? && th.queue.Some? ==> Blocked(th.queue.value, s.len) || WakeOwed(s, th.queue.value)
  }

  /** No wake-up is lost. */
  ghost predicate WakeOk(s: State) {
    forall t :: t in s.threads ==> SleepOk(s, s.threads[t])
  }

  /** The log is a legal FIFO history that leaves exactly the pending bytes. */
  ghost predicate LogOk(s: State) {
    Legal(s.log) && Replay(s.log) == Pending(s)
  }

  /** The event of a call that has been made but not yet reported. */
  function InFlight(t: Tid, th: Thread): (r: seq<Event>) {
    if th.pc.Wake? || ((th.pc.Unlock? || th.pc.Leave?) && th.ret.Count?)
    then [if th.pc.side.Reader? then Got(t, th.data) else Put(t, th.data)] else []
  }

  /** Each thread's events are those it has reported, and then the one in flight if there is one. */
  ghost predicate ReturnsOk(s: State) {
    forall t :: t in s.threads ==> EventsOf(s.log, t) == s.threads[t].returned + InFlight(t, s.threads[t])
  }

  ghost predicate Inv(s: State) {
    MemOk(s) && MutexOk(s) && ThreadsOk(s) && WakeOk(s) && LogOk(s) && ReturnsOk(s)
  }
}
