/**
 The user-level semaphore of nre/include/kobj/UserSm.h, used as a lock by any number of threads:
 a counter changed by atomic adds in front of a kernel semaphore that starts at 0. Each atomic
 add and each kernel call is a step of its own.
 */
module UserSm {
  import opened Bits

  /** Where a thread is with respect to the semaphore. */
  datatype Pc =
    | Free
    | Waiting                             // took the slow path of down(), kernel down outstanding
    | Blocked                             // inside the kernel down
    | Holding                             // down() has returned
    | Signalling                          // took the slow path of up(), kernel up outstanding

  /** `value` is _value, `sem` the kernel semaphore's counter. */
  datatype State = State(threads: seq<Pc>, value: int, sem: nat)

  datatype Action =
    | Down(t: nat)                        // the atomic add of down()
    | KernelDown(t: nat)
    | Up(t: nat)                          // the atomic add of up()
    | KernelUp(t: nat, wake: nat)         // `wake`: the blocked thread the kernel picks, if any

  predicate Enabled(s: State, a: Action) {
    && a.t < |s.threads|
    && match a
       case Down(t) => s.threads[t] == Free
       case KernelDown(t) => s.threads[t] == Waiting
       case Up(t) => s.threads[t] == Holding
       case KernelUp(t, wake) =>
         && s.threads[t] == Signalling
         && (Blocked in s.threads ==> wake < |s.threads| && s.threads[wake] == Blocked)
  }

  function Step(s: State, a: Action): State
    requires Enabled(s, a)
  {
    match a
    case Down(t) =>
      State(s.threads[t := if s.value <= 0 then Waiting else Holding], s.value - 1, s.sem)
    case KernelDown(t) =>
      if s.sem > 0 then State(s.threads[t := Holding], s.value, s.sem - 1)
      else s.(threads := s.threads[t := Blocked])
    case Up(t) =>
      State(s.threads[t := if s.value < 0 then Signalling else Free], s.value + 1, s.sem)
    case KernelUp(t, wake) =>
      if Blocked in s.threads then s.(threads := s.threads[t := Free][wake := Holding])
      else State(s.threads[t := Free], s.value, s.sem + 1)
  }

  predicate AllFree(s: State) {
    forall t :: 0 <= t < |s.threads| ==> s.threads[t] == Free
  }

  predicate Init(s: State, initial: nat) {
    s.value == initial && s.sem == 0 && AllFree(s)
  }

  predicate Run(s: State, run: seq<Action>, s': State)
    decreases |run|
  {
    if run == [] then s == s'
    else Enabled(s, run[0]) && Run(Step(s, run[0]), run[1..], s')
  }

  // ---------------------------------------------------------------- counting threads

  function Count(ts: seq<Pc>, pc: Pc): nat {
    if ts == [] then 0 else (if ts[0] == pc then 1 else 0) + Count(ts[1..], pc)
  }

  lemma {:induction false} CountUpdate(ts: seq<Pc>, t: nat, q: Pc, pc: Pc)
    requires t < |ts|
    ensures Count(ts[t := q], pc)
            == Count(ts, pc) - (if ts[t] == pc then 1 else 0) + (if q == pc then 1 else 0)
  {
    if t == 0 {
      assert ts[t := q][1..] == ts[1..];
    } else {
      assert ts[t := q][1..] == ts[1..][t - 1 := q];
      CountUpdate(ts[1..], t - 1, q, pc);
    }
  }

  lemma {:induction false} CountPositive(ts: seq<Pc>, pc: Pc)
    ensures Count(ts, pc) > 0 <==> pc in ts
  {
    if ts != [] { CountPositive(ts[1..], pc); }
  }

  lemma {:induction false} CountNone(ts: seq<Pc>, pc: Pc)
    requires pc != Free && forall t :: 0 <= t < |ts| ==> ts[t] == Free
    ensures Count(ts, pc) == 0
  {
    if ts != [] { CountNone(ts[1..], pc); }
  }

  function Holders(s: State): nat { Count(s.threads, Holding) }

  function Waiters(s: State): nat { Count(s.threads, Waiting) + Count(s.threads, Blocked) }

  function OwedUps(s: State): nat { Count(s.threads, Signalling) }

  /** Permits are conserved, and nobody is blocked while the kernel semaphore is positive. */
  predicate Inv(s: State, initial: nat) {
    && s.value == initial - Holders(s) - Waiters(s)
    && Holders(s) + s.sem + OwedUps(s) == Min(initial, Holders(s) + Waiters(s))
    && (Blocked in s.threads ==> s.sem == 0)
  }

  lemma {:induction false} CountsAfter(ts: seq<Pc>, t: nat, q: Pc)
    requires t < |ts|
    ensures forall pc ::
              Count(ts[t := q], pc) == Count(ts, pc) - (if ts[t] == pc then 1 else 0) + (if q == pc then 1 else 0)
  {
    forall pc { CountUpdate(ts, t, q, pc); }
  }

  lemma {:induction false} AddStep(s: State, a: Action, initial: nat)
    requires Inv(s, initial) && Enabled(s, a) && (a.Down? || a.Up?)
    ensures Inv(Step(s, a), initial)
  {
    var s' := Step(s, a);
    hide Count;
    CountsAfter(s.threads, a.t, s'.threads[a.t]);
    CountPositive(s.threads, Holding);
  }

  lemma {:induction false} KernelDownStep(s: State, t: nat, initial: nat)
    requires Inv(s, initial) && Enabled(s, KernelDown(t))
    ensures Inv(Step(s, KernelDown(t)), initial)
  {
    hide Count;
    CountsAfter(s.threads, t, if s.sem > 0 then Holding else Blocked);
  }

  lemma {:induction false} KernelUpStep(s: State, t: nat, wake: nat, initial: nat)
    requires Inv(s, initial) && Enabled(s, KernelUp(t, wake))
    ensures Inv(Step(s, KernelUp(t, wake)), initial)
  {
    hide Count;
    CountsAfter(s.threads, t, Free);
    if Blocked in s.threads { CountsAfter(s.threads[t := Free], wake, Holding); }
  }

  lemma {:induction false} InvStep(s: State, a: Action, initial: nat)
    requires Inv(s, initial) && Enabled(s, a)
    ensures Inv(Step(s, a), initial)
  {
    hide Inv, Step;
    match a {
      case KernelDown(t) => KernelDownStep(s, t, initial);
      case KernelUp(t, wake) => KernelUpStep(s, t, wake, initial);
      case _ => AddStep(s, a, initial);
    }
  }

  lemma {:induction false} InvRun(s: State, run: seq<Action>, s': State, initial: nat)
    requires Inv(s, initial) && Run(s, run, s')
    ensures Inv(s', initial)
    decreases |run|
  {
    if run != [] {
      InvStep(s, run[0], initial);
      InvRun(Step(s, run[0]), run[1..], s', initial);
    }
  }

  lemma {:induction false} InitInv(s: State, initial: nat)
    requires Init(s, initial)
    ensures Inv(s, initial)
  {
    CountNone(s.threads, Holding);
    CountNone(s.threads, Waiting);
    CountNone(s.threads, Blocked);
    CountNone(s.threads, Signalling);
  }

  // ---------------------------------------------------------------- main results

  /** In every interleaving permits are conserved, so at most `initial` threads hold the lock. */
  lemma {:induction false} PermitsConserved(s: State, run: seq<Action>, s': State, initial: nat)
    requires Init(s, initial) && Run(s, run, s')
    ensures Holders(s') + s'.sem + OwedUps(s') == Min(initial, Holders(s') + Waiters(s'))
    ensures Holders(s') <= initial
  {
    InitInv(s, initial);
    InvRun(s, run, s', initial);
  }

  /** A blocked thread is never stranded: while a permit is free, some thread owes it a kernel up. */
  lemma {:induction false} NoStrandedWaiter(s: State, run: seq<Action>, s': State, initial: nat)
    requires Init(s, initial) && Run(s, run, s')
    requires Blocked in s'.threads && Holders(s') < initial
    ensures Signalling in s'.threads
  {
    InitInv(s, initial);
    InvRun(s, run, s', initial);
    hide Run, Count;
    CountPositive(s'.threads, Blocked);
    CountPositive(s'.threads, Signalling);
  }

  /** The value is the initial one, less the downs and plus the ups of the run. */
  lemma {:induction false} ValueFollowsRun(s: State, run: seq<Action>, s': State)
    requires Run(s, run, s')
    ensures s'.value == s.value - Downs(run) + Ups(run)
    decreases |run|
  {
    if run != [] { ValueFollowsRun(Step(s, run[0]), run[1..], s'); }
  }

  function Downs(run: seq<Action>): nat {
    if run == [] then 0 else (if run[0].Down? then 1 else 0) + Downs(run[1..])
  }

  function Ups(run: seq<Action>): nat {
    if run == [] then 0 else (if run[0].Up? then 1 else 0) + Ups(run[1..])
  }

  /** down() returns at once exactly if a permit is left over. */
  lemma {:induction false} DownExactly(s: State, run: seq<Action>, s': State, t: nat, initial: nat)
    requires Init(s, initial) && Run(s, run, s') && Enabled(s', Down(t))
    ensures Step(s', Down(t)).threads[t] == if Holders(s') + Waiters(s') < initial then Holding else Waiting
    ensures forall u :: 0 <= u < |s'.threads| && u != t ==> Step(s', Down(t)).threads[u] == s'.threads[u]
  {
    InitInv(s, initial);
    InvRun(s, run, s', initial);
  }

  /** up() gives its permit back, and owes a kernel up exactly if a thread waits without a permit. */
  lemma {:induction false} UpExactly(s: State, run: seq<Action>, s': State, t: nat, initial: nat)
    requires Init(s, initial) && Run(s, run, s') && Enabled(s', Up(t))
    ensures Holders(Step(s', Up(t))) == Holders(s') - 1
    ensures Step(s', Up(t)).threads[t] == if Holders(s') + Waiters(s') > initial then Signalling else Free
  {
    InitInv(s, initial);
    InvRun(s, run, s', initial);
    hide Run, Count;
    CountsAfter(s'.threads, t, Step(s', Up(t)).threads[t]);
  }

  /** When all threads are out, everything is as it was at the start. */
  lemma {:induction false} AllFreeRestores(s: State, run: seq<Action>, s': State, initial: nat)
    requires Init(s, initial) && Run(s, run, s')
    requires AllFree(s')
    ensures Init(s', initial)
  {
    InitInv(s, initial);
    InvRun(s, run, s', initial);
    hide Run;
    CountNone(s'.threads, Holding);
    CountNone(s'.threads, Waiting);
    CountNone(s'.threads, Blocked);
    CountNone(s'.threads, Signalling);
  }

  // ---------------------------------------------------------------- progress

  /** Some run leads from `s` to a state in which thread `t` holds the lock. */
  ghost predicate CanHold(s: State, t: nat) {
    exists run, s' :: Run(s, run, s') && t < |s'.threads| && s'.threads[t] == Holding
  }

  lemma {:induction false} HoldsNow(s: State, t: nat)
    requires t < |s.threads| && s.threads[t] == Holding
    ensures CanHold(s, t)
  {
    assert Run(s, [], s);
  }

  lemma {:induction false} HoldsAfter(s: State, a: Action, t: nat)
    requires Enabled(s, a) && CanHold(Step(s, a), t)
    ensures CanHold(s, t)
  {
    var run, s' :| Run(Step(s, a), run, s') && t < |s'.threads| && s'.threads[t] == Holding;
    assert ([a] + run)[1..] == run;
    assert Run(s, [a] + run, s');
  }

  /** A thread that owes a kernel up can hand its permit to any blocked thread. */
  lemma {:induction false} SignalHands(s: State, u: nat, t: nat)
    requires u < |s.threads| && s.threads[u] == Signalling && t < |s.threads| && s.threads[t] == Blocked
    ensures CanHold(s, t)
  {
    HoldsNow(Step(s, KernelUp(u, t)), t);
    HoldsAfter(s, KernelUp(u, t), t);
  }

  lemma {:induction false} BlockedCanHold(s: State, t: nat, initial: nat)
    requires Inv(s, initial) && initial > 0 && t < |s.threads| && s.threads[t] == Blocked
    ensures CanHold(s, t)
  {
    hide Count, CanHold;
    CountPositive(s.threads, Blocked);
    CountPositive(s.threads, Holding);
    CountPositive(s.threads, Signalling);
    if Signalling in s.threads {
      var u :| 0 <= u < |s.threads| && s.threads[u] == Signalling;
      SignalHands(s, u, t);
    } else {
      assert s.value < 0 && Holding in s.threads;
      var h :| 0 <= h < |s.threads| && s.threads[h] == Holding;
      SignalHands(Step(s, Up(h)), h, t);
      HoldsAfter(s, Up(h), t);
    }
  }

  lemma {:induction false} WaiterCanHold(s: State, t: nat, initial: nat)
    requires Inv(s, initial) && initial > 0 && t < |s.threads| && (s.threads[t] == Waiting || s.threads[t] == Blocked)
    ensures CanHold(s, t)
  {
    hide Count, CanHold;
    if s.threads[t] == Blocked {
      BlockedCanHold(s, t, initial);
    } else {
      var s' := Step(s, KernelDown(t));
      KernelDownStep(s, t, initial);
      if s.sem > 0 { HoldsNow(s', t); } else { BlockedCanHold(s', t, initial); }
      HoldsAfter(s, KernelDown(t), t);
    }
  }

  /** A waiting thread can still get the lock, whatever has happened, exactly if there are permits. */
  lemma {:induction false} WaiterCanHoldExactly(s: State, run: seq<Action>, s': State, t: nat, initial: nat)
    requires Init(s, initial) && Run(s, run, s')
    requires t < |s'.threads| && (s'.threads[t] == Waiting || s'.threads[t] == Blocked)
    ensures CanHold(s', t) <==> initial > 0
  {
    InitInv(s, initial);
    InvRun(s, run, s', initial);
    if initial > 0 {
      WaiterCanHold(s', t, initial);
    } else {
      forall run', s'' | Run(s', run', s'') && t < |s''.threads| ensures s''.threads[t] != Holding {
        InvRun(s', run', s'', initial);
        CountPositive(s''.threads, Holding);
      }
    }
  }

  /** An upper bound for the steps until a thread is out. */
  function Rank(pc: Pc): nat {
    match pc
    case Waiting => 4
    case Blocked => 3
    case Holding => 2
    case Signalling => 1
    case Free => 0
  }

  function Work(ts: seq<Pc>): nat {
    if ts == [] then 0 else Rank(ts[0]) + Work(ts[1..])
  }

  lemma {:induction false} WorkUpdate(ts: seq<Pc>, t: nat, q: Pc)
    requires t < |ts|
    ensures Work(ts[t := q]) == Work(ts) - Rank(ts[t]) + Rank(q)
  {
    if t == 0 {
      assert ts[t := q][1..] == ts[1..];
    } else {
      assert ts[t := q][1..] == ts[1..][t - 1 := q];
      WorkUpdate(ts[1..], t - 1, q);
    }
  }

  /** Every step except a new down() brings the threads closer to the end. */
  lemma {:induction false} WorkShrinks(s: State, a: Action)
    requires Enabled(s, a) && !a.Down?
    ensures Work(Step(s, a).threads) < Work(s.threads)
  {
    hide Work;
    var ts := s.threads[a.t := if a.KernelUp? then Free else Step(s, a).threads[a.t]];
    WorkUpdate(s.threads, a.t, ts[a.t]);
    if a.KernelUp? && Blocked in s.threads { WorkUpdate(ts, a.wake, Holding); }
  }

  /** Without new down() calls every run is over after at most Work steps. */
  lemma {:induction false} ReleasesEnd(s: State, run: seq<Action>, s': State)
    requires Run(s, run, s') && Downs(run) == 0
    ensures |run| + Work(s'.threads) <= Work(s.threads)
    decreases |run|
  {
    if run != [] {
      WorkShrinks(s, run[0]);
      ReleasesEnd(Step(s, run[0]), run[1..], s');
    }
  }

  /** As long as a thread is not out, some thread that is not out can move, and ends up closer to it. */
  lemma {:induction false} NextMove(s: State, initial: nat) returns (a: Action)
    requires Inv(s, initial) && initial > 0 && !AllFree(s)
    ensures Enabled(s, a) && !a.Down?
  {
    hide Count;
    CountPositive(s.threads, Blocked);
    CountPositive(s.threads, Holding);
    CountPositive(s.threads, Signalling);
    var t :| 0 <= t < |s.threads| && s.threads[t] != Free;
    if Signalling in s.threads {
      var u :| 0 <= u < |s.threads| && s.threads[u] == Signalling;
      var wake := 0;
      if Blocked in s.threads { wake :| 0 <= wake < |s.threads| && s.threads[wake] == Blocked; }
      a := KernelUp(u, wake);
    } else if Holding in s.threads {
      var h :| 0 <= h < |s.threads| && s.threads[h] == Holding;
      a := Up(h);
    } else {
      assert s.threads[t] == Waiting;
      a := KernelDown(t);
    }
  }

  lemma {:induction false} CanFinish(s: State, initial: nat) returns (run: seq<Action>, s': State)
    requires Inv(s, initial) && initial > 0
    ensures Run(s, run, s') && Downs(run) == 0 && AllFree(s')
    decreases Work(s.threads)
  {
    if AllFree(s) {
      run, s' := [], s;
    } else {
      var a := NextMove(s, initial);
      WorkShrinks(s, a);
      InvStep(s, a, initial);
      var rest;
      hide Inv, Work, AllFree;
      rest, s' := CanFinish(Step(s, a), initial);
      run := [a] + rest;
      assert run[1..] == rest;
    }
  }

  lemma {:induction false} InsideWithout(s: State, a: Action)
    requires Inv(s, 0) && Enabled(s, a)
    ensures !AllFree(Step(s, a))
  {
    hide Count;
    CountPositive(s.threads, Holding);
    CountPositive(s.threads, Signalling);
    assert Step(s, a).threads[a.t] != Free;
  }

  /** Without permits nobody who is inside ever gets out. */
  lemma {:induction false} NobodyLeaves(s: State, run: seq<Action>, s': State)
    requires Inv(s, 0) && Run(s, run, s')
    ensures !AllFree(s) || run != [] ==> !AllFree(s')
    decreases |run|
  {
    if run != [] {
      InvStep(s, run[0], 0);
      InsideWithout(s, run[0]);
      NobodyLeaves(Step(s, run[0]), run[1..], s');
    }
  }

  /** Some run without new down() calls lets all threads out. */
  ghost predicate CanDrain(s: State) {
    exists run, s' :: Run(s, run, s') && Downs(run) == 0 && AllFree(s')
  }

  lemma {:induction false} DrainsWithout(s: State)
    requires Inv(s, 0)
    ensures CanDrain(s) <==> AllFree(s)
  {
    assert Run(s, [], s) && Downs([]) == 0;
    forall run, s' | Run(s, run, s') ensures AllFree(s') ==> AllFree(s) { NobodyLeaves(s, run, s'); }
  }

  /**
   No deadlock: from every reachable state all threads can get out exactly if there are permits
   or nobody is inside. A thread that is inside then has a step to take, or another one has.
   */
  lemma {:induction false} NoDeadlock(s: State, run: seq<Action>, s': State, initial: nat)
    requires Init(s, initial) && Run(s, run, s')
    ensures CanDrain(s') <==> initial > 0 || AllFree(s')
    ensures initial > 0 && !AllFree(s') ==> exists a :: Enabled(s', a) && !a.Down?
  {
    InitInv(s, initial);
    InvRun(s, run, s', initial);
    hide Inv, Init, AllFree;
    if initial == 0 {
      DrainsWithout(s');
    } else {
      var run', s'' := CanFinish(s', initial);
      if !AllFree(s') { var a := NextMove(s', initial); }
    }
  }
}
