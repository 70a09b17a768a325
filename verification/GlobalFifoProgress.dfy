/** Without new calls the FIFO settles: every schedule makes a bounded number of steps, and any fair one ends with
    every thread outside the driver or asleep for want of bytes or of room. */
module GlobalFifoProgress {
  import opened Options
  import opened Bytes
  import opened GlobalFifo
  import opened GlobalFifoSafety
  import opened GlobalFifoTheorems

  predicate IsCall(a: Action) {
    a.CallRead? || a.CallWrite? || a.CallIoctl? || a.CallPoll?
  }

  // ---------------------------------------------------------------- the potential

  /** The call may still wake others. */
  predicate MayWake(pc: Pc) {
    pc.Lock? || pc.Enqueue? || pc.Test? || pc.Doze? || pc.Schedule? || pc.SignalTest? || pc.Relock? || InMove(pc)
  }

  /** How many steps a thread can take before it leaves or sleeps, if nobody wakes it or sends it a signal. */
  function Rank(th: Thread): (r: nat)
    ensures r <= 11
  {
    match th.pc
    case Idle => 0
    case Leave(_) => 1
    case Unlock(_) => 2
    case Wake(_) => 3
    case Shrink => 4
    case Grow => 4
    case Shift => 5
    case Copy(_) => 6
    case Test(_) => 7
    case Relock(_) => 8
    case Enqueue(_) => 8
    case Lock(_) => 9
    case SignalTest(_) => if th.signal then 2 else 9
    case Schedule(_) => if th.signal then 3 else if th.run.Interruptible? then 2 else 10
    case Doze(_) => if th.signal then 4 else if th.run.Interruptible? then 3 else 11
    case ClearLock => 3
    case Clear => 2
    case ClearUnlock => 1
    case PollLock => 3
    case PollMask => 2
    case PollRelock => 1
  }

  /** A wake-up can give each of `n` threads 8 steps, and a signal one thread at most one. */
  function Potential(th: Thread, n: nat): (r: nat)
    ensures r <= 8 * n + 14
  {
    (if MayWake(th.pc) then 8 * n + 1 else 0) + (if !th.pc.Idle? && !th.signal then 2 else 0) + Rank(th)
  }

  function PotentialOf(s: State, u: Tid, n: nat): (r: nat)
    ensures r <= 8 * n + 14
  {
    if u in s.threads then Potential(s.threads[u], n) else 0
  }

  /** The potential of the threads below `k`. */
  function Total(s: State, k: nat, n: nat): (r: nat) {
    if k == 0 then 0 else Total(s, k - 1, n) + PotentialOf(s, k - 1, n)
  }

  lemma {:induction false} TotalBound(s: State, k: nat, n: nat)
    ensures Total(s, k, n) <= k * (8 * n + 14)
  {
    if k > 0 {
      TotalBound(s, k - 1, n);
      assert k * (8 * n + 14) == (k - 1) * (8 * n + 14) + (8 * n + 14);
    }
  }

  /** Every thread is among the first `n`. */
  ghost predicate Below(s: State, n: nat) {
    forall t :: t in s.threads ==> t < n
  }

  lemma {:induction false} TotalKept(s: State, r: State, k: nat, n: nat)
    requires forall u: nat :: u < k ==> PotentialOf(r, u, n) <= PotentialOf(s, u, n)
    ensures Total(r, k, n) <= Total(s, k, n)
  {
    if k > 0 { TotalKept(s, r, k - 1, n); }
  }

  lemma {:induction false} TotalLowered(s: State, r: State, t: Tid, k: nat, n: nat)
    requires t < k && PotentialOf(r, t, n) < PotentialOf(s, t, n)
    requires forall u: nat :: u < k ==> PotentialOf(r, u, n) <= PotentialOf(s, u, n)
    ensures Total(r, k, n) < Total(s, k, n)
  {
    if t == k - 1 { TotalKept(s, r, k - 1, n); } else { TotalLowered(s, r, t, k - 1, n); }
  }

  /** A step that gives every thread at most 8 adds at most 8 for each. */
  lemma {:induction false} TotalRaised(s: State, r: State, k: nat, n: nat)
    requires forall u: nat :: u < k ==> PotentialOf(r, u, n) <= PotentialOf(s, u, n) + 8
    ensures Total(r, k, n) <= Total(s, k, n) + 8 * k
  {
    if k > 0 { TotalRaised(s, r, k - 1, n); }
  }

  lemma {:induction false} TotalWoken(s: State, r: State, t: Tid, k: nat, n: nat, cost: nat)
    requires t < k && PotentialOf(r, t, n) + cost <= PotentialOf(s, t, n)
    requires forall u: nat :: u < k && u != t ==> PotentialOf(r, u, n) <= PotentialOf(s, u, n) + 8
    ensures Total(r, k, n) + cost <= Total(s, k, n) + 8 * k
  {
    if t == k - 1 { TotalRaised(s, r, k - 1, n); } else { TotalWoken(s, r, t, k - 1, n, cost); }
  }

  // ---------------------------------------------------------------- one step

  /** The copy section goes one line on, up to the unlock. */
  lemma MoveGoesOn(s: State, t: Tid)
    requires t in s.threads && InMove(s.threads[t].pc)
    ensures
      var pc, r := s.threads[t].pc, GoMove(s, t, s.threads[t]);
      && t in r.threads
      && r.threads[t].signal == s.threads[t].signal
      && (if pc.Copy? then r.threads[t].pc == (if pc.side.Reader? then Shift else Grow)
          else if pc.Shift? then r.threads[t].pc.Shrink?
          else if pc.Wake? then r.threads[t].pc.Unlock?
          else r.threads[t].pc.Wake?)
  {
  }

  lemma OwnMoveLowers(s: State, t: Tid, n: nat)
    requires t in s.threads && InMove(s.threads[t].pc)
    ensures
      var r := GoMove(s, t, s.threads[t]);
      t in r.threads && Potential(r.threads[t], n) + (if s.threads[t].pc.Wake? then 8 * n + 1 else 1) <= Potential(s.threads[t], n)
  {
    MoveGoesOn(s, t);
  }

  lemma OwnWaitLowers(s: State, t: Tid, n: nat)
    requires t in s.threads && !InMove(s.threads[t].pc)
    ensures
      var r := GoWait(s, t, s.threads[t]);
      r == s || (t in r.threads && Potential(r.threads[t], n) < Potential(s.threads[t], n))
  {
  }

  lemma OwnOtherLowers(s: State, t: Tid, n: nat)
    requires t in s.threads && InOther(s.threads[t].pc)
    ensures
      var r := GoOther(s, t, s.threads[t]);
      r == s || (t in r.threads && Potential(r.threads[t], n) < Potential(s.threads[t], n))
  {
  }

  /** A signal or a failed copy. */
  lemma OwnRestLowers(s: State, t: Tid, a: Action, n: nat)
    requires t in s.threads && (a.Signal? || a.Fault?)
    ensures
      var r := Step(s, t, a);
      && t in r.threads && Potential(r.threads[t], n) <= Potential(s.threads[t], n)
      && (a.Fault? ==> r == s || Potential(r.threads[t], n) < Potential(s.threads[t], n))
  {
  }

  /** Another thread gains at most 8 by a wake-up and nothing by any other step. */
  lemma OtherGains(s: State, t: Tid, a: Action, u: Tid, n: nat)
    requires t in s.threads && u != t
    ensures
      PotentialOf(Step(s, t, a), u, n)
      <= PotentialOf(s, u, n) + if a.Go? && s.threads[t].pc.Wake? then 8 else 0
  {
    KeysKept(s, t, a);
    if u in s.threads {
      OthersKept(s, t, a, u);
    }
  }

  /** Without new calls no step raises the potential, and a step of code that changes anything lowers it. */
  lemma StepLowers(s: State, t: Tid, a: Action, n: nat)
    requires Below(s, n) && !IsCall(a)
    ensures Total(Step(s, t, a), n, n) <= Total(s, n, n)
    ensures !a.Signal? && Step(s, t, a) != s ==> Total(Step(s, t, a), n, n) < Total(s, n, n)
  {
    var r := Step(s, t, a);
    if t in s.threads && r != s {
      forall u: nat | u < n && u != t
        ensures PotentialOf(r, u, n) <= PotentialOf(s, u, n) + if a.Go? && s.threads[t].pc.Wake? then 8 else 0
      {
        OtherGains(s, t, a, u, n);
      }
      if !a.Go? {
        OwnRestLowers(s, t, a, n);
        TotalKept(s, r, n, n);
        if a.Fault? { TotalLowered(s, r, t, n, n); }
      } else if s.threads[t].pc.Wake? {
        OwnMoveLowers(s, t, n);
        TotalWoken(s, r, t, n, n, 8 * n + 1);
      } else {
        if InMove(s.threads[t].pc) {
          OwnMoveLowers(s, t, n);
        } else if InOther(s.threads[t].pc) {
          OwnOtherLowers(s, t, n);
        } else {
          OwnWaitLowers(s, t, n);
        }
        TotalLowered(s, r, t, n, n);
      }
    }
  }

  lemma BelowKept(s: State, t: Tid, a: Action, n: nat)
    requires Below(s, n)
    ensures Below(Step(s, t, a), n)
  {
    KeysKept(s, t, a);
  }

  // ---------------------------------------------------------------- runs

  ghost predicate NoCalls(schedule: seq<(Tid, Action)>) {
    forall i :: 0 <= i < |schedule| ==> !IsCall(schedule[i].1)
  }

  /** How many actions of a run are steps of code that change anything. */
  function Effective(s: State, schedule: seq<(Tid, Action)>): (r: nat)
    decreases schedule
  {
    if schedule == [] then 0
    else
      var next := Step(s, schedule[0].0, schedule[0].1);
      (if !schedule[0].1.Signal? && next != s then 1 else 0) + Effective(next, schedule[1..])
  }

  lemma {:induction false} EffectiveBound(s: State, schedule: seq<(Tid, Action)>, n: nat)
    requires Below(s, n) && NoCalls(schedule)
    ensures Below(Execute(s, schedule), n)
    ensures Effective(s, schedule) + Total(Execute(s, schedule), n, n) <= Total(s, n, n)
    decreases schedule
  {
    if schedule != [] {
      var t, a := schedule[0].0, schedule[0].1;
      StepLowers(s, t, a, n);
      BelowKept(s, t, a, n);
      EffectiveBound(Step(s, t, a), schedule[1..], n);
    }
  }

  /** From any state of `n` threads, without new calls, every schedule makes at most n * (8 * n + 14) effective steps,
      however many signals arrive, copies fail and threads compete. */
  lemma BoundedSteps(s: State, schedule: seq<(Tid, Action)>, n: nat)
    requires Below(s, n) && NoCalls(schedule)
    ensures Effective(s, schedule) <= n * (8 * n + 14)
  {
    EffectiveBound(s, schedule, n);
    TotalBound(s, n, n);
  }

  /** The code of every thread gets a turn; no call begins and no signal arrives. */
  ghost predicate Fair(s: State, round: seq<(Tid, Action)>) {
    && (forall i :: 0 <= i < |round| ==> round[i].1.Go? || round[i].1.Fault?)
    && forall t :: t in s.threads ==> (t, Go) in round
  }

  function ExecuteAll(s: State, rounds: seq<seq<(Tid, Action)>>): (r: State)
    decreases rounds
  {
    if rounds == [] then s else ExecuteAll(Execute(s, rounds[0]), rounds[1..])
  }

  /** A schedule without an effective step changes nothing, and so no step in it could have. */
  lemma {:induction false} IneffectiveRun(s: State, schedule: seq<(Tid, Action)>)
    requires Effective(s, schedule) == 0 && forall i :: 0 <= i < |schedule| ==> !schedule[i].1.Signal?
    ensures Execute(s, schedule) == s
    ensures forall i :: 0 <= i < |schedule| ==> Step(s, schedule[i].0, schedule[i].1) == s
    decreases schedule
  {
    if schedule != [] {
      IneffectiveRun(s, schedule[1..]);
      assert forall i :: 0 < i < |schedule| ==> schedule[i] == schedule[1..][i - 1];
    }
  }

  /** A fair round without an effective step is a round in a quiet state. */
  lemma IneffectiveRoundIsQuiet(s: State, round: seq<(Tid, Action)>)
    requires Inv(s) && NoPoll(s) && Fair(s, round) && Effective(s, round) == 0
    ensures Quiet(s)
  {
    IneffectiveRun(s, round);
    forall t | t in s.threads ensures Step(s, t, Go) == s {
      var i :| 0 <= i < |round| && round[i] == (t, Go);
    }
    StuckIsQuiet(s);
  }

  lemma {:induction false} QuietStays(s: State, schedule: seq<(Tid, Action)>)
    requires Quiet(s) && forall i :: 0 <= i < |schedule| ==> schedule[i].1.Go? || schedule[i].1.Fault?
    ensures Execute(s, schedule) == s
    decreases schedule
  {
    if schedule != [] {
      assert Step(s, schedule[0].0, schedule[0].1) == s;
      QuietStays(s, schedule[1..]);
    }
  }

  lemma WaitStaysOutOfPoll(s: State, t: Tid)
    requires t in s.threads && !InPoll(s.threads[t].pc)
    ensures t in GoWait(s, t, s.threads[t]).threads && !InPoll(GoWait(s, t, s.threads[t]).threads[t].pc)
  {
  }

  lemma StaysOutOfPoll(s: State, t: Tid, a: Action)
    requires t in s.threads && !InPoll(s.threads[t].pc) && (a.Go? || a.Fault?)
    ensures t in Step(s, t, a).threads && !InPoll(Step(s, t, a).threads[t].pc)
  {
    if a.Go? && InMove(s.threads[t].pc) {
      MoveGoesOn(s, t);
    } else if a.Go? && !InOther(s.threads[t].pc) {
      WaitStaysOutOfPoll(s, t);
    }
  }

  lemma NoPollKept(s: State, t: Tid, a: Action)
    requires NoPoll(s) && (a.Go? || a.Fault?)
    ensures NoPoll(Step(s, t, a))
  {
    KeysKept(s, t, a);
    if t in s.threads {
      StaysOutOfPoll(s, t, a);
      forall u | u in s.threads && u != t ensures !InPoll(Step(s, t, a).threads[u].pc) {
        OthersKept(s, t, a, u);
      }
    }
  }

  lemma {:induction false} RoundKept(s: State, round: seq<(Tid, Action)>)
    requires NoPoll(s) && forall i :: 0 <= i < |round| ==> round[i].1.Go? || round[i].1.Fault?
    ensures NoPoll(Execute(s, round)) && Execute(s, round).threads.Keys == s.threads.Keys
    decreases round
  {
    if round != [] {
      NoPollKept(s, round[0].0, round[0].1);
      KeysKept(s, round[0].0, round[0].1);
      RoundKept(Step(s, round[0].0, round[0].1), round[1..]);
    }
  }

  lemma {:induction false} SettlesWithin(s: State, rounds: seq<seq<(Tid, Action)>>, n: nat)
    requires Inv(s) && NoPoll(s) && Below(s, n)
    requires forall i :: 0 <= i < |rounds| ==> Fair(s, rounds[i])
    requires |rounds| > Total(s, n, n) || Quiet(s)
    ensures Quiet(ExecuteAll(s, rounds))
    decreases rounds
  {
    if rounds != [] {
      var r := Execute(s, rounds[0]);
      if Quiet(s) {
        QuietStays(s, rounds[0]);
      } else {
        EffectiveBound(s, rounds[0], n);
        if Effective(s, rounds[0]) == 0 { IneffectiveRoundIsQuiet(s, rounds[0]); }
      }
      RunKept(s, rounds[0]);
      RoundKept(s, rounds[0]);
      EffectiveBound(s, rounds[0], n);
      forall i | 0 <= i < |rounds[1..]| ensures Fair(r, rounds[1..][i]) { assert Fair(s, rounds[i + 1]); }
      SettlesWithin(r, rounds[1..], n);
    }
  }

  /** The FIFO settles: from every reachable state of `n` threads outside poll, once no new calls or signals come, any
      n * (8 * n + 14) + 1 rounds in which every thread gets a turn end in a quiet state. So no thread that could be
      served is left waiting. */
  lemma Settles(s: State, rounds: seq<seq<(Tid, Action)>>, n: nat)
    requires Reachable(s) && NoPoll(s) && Below(s, n)
    requires forall i :: 0 <= i < |rounds| ==> Fair(s, rounds[i])
    requires |rounds| > n * (8 * n + 14)
    ensures Quiet(ExecuteAll(s, rounds))
  {
    ReachableInv(s);
    TotalBound(s, n, n);
    SettlesWithin(s, rounds, n);
  }
}
