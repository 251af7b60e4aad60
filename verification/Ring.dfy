/**
 The shared-memory ring of nre/include/ipc/Producer.h and Consumer.h as a transition system:
 one producer, one consumer, and callers of stop(). Every access to a shared word and every
 semaphore operation is a step of its own; memory is sequentially consistent.
 */
module Ring {
  import opened Bits

  /** The program points of Producer::produce. */
  datatype Producer =
    | Outside
    | SlotFound(value: int)               // current() returned the slot at wpos
    | SlotWritten(value: int)
    | OwesUp                              // wpos is advanced, the semaphore not yet signalled

  /** The program points of Consumer::get and of the time between get() and next(). */
  datatype Consumer =
    | Away
    | Test                                // about to compare rpos with wpos
    | TestStop                            // found them equal, about to read _stop
    | AtZero                              // about to call zero() on the semaphore
    | Blocked                             // waiting inside zero()
    | Got                                 // get() returned the slot at rpos

  /**
   `buffer` is what follows the header in the dataspace; `produced` and `consumed` are the
   histories of both sides; `stray` records an access outside the buffer.
   */
  datatype State = State(
    buffer: seq<int>, max: nat, rpos: nat, wpos: nat, sem: nat,
    stop: bool, stopUps: nat, producer: Producer, consumer: Consumer,
    produced: seq<int>, consumed: seq<int>, stray: bool)

  datatype Action = Produce(value: int) | Write | Advance | Signal | Get | Look | Next | Stop | StopSignal

  function Succ(pos: nat, max: nat): nat
    requires max > 0
  {
    And(pos + 1, max - 1)
  }

  predicate Enabled(s: State, a: Action) {
    match a
    case Produce(_) => s.producer.Outside?
    case Write => s.producer.SlotFound?
    case Advance => s.producer.SlotWritten?
    case Signal => s.producer.OwesUp?
    case Get => s.consumer.Away?
    case Look => s.consumer.Test? || s.consumer.TestStop? || s.consumer.AtZero?
    case Next => s.consumer.Got?
    case Stop => true
    case StopSignal => s.stopUps > 0
  }

  /** Kernel semaphore: up unblocks a blocked consumer, otherwise counts. */
  function Up(s: State): State {
    if s.consumer.Blocked? then s.(consumer := Test) else s.(sem := s.sem + 1)
  }

  function Step(s: State, a: Action): State
    requires s.max > 0 && Enabled(s, a)
  {
    match a
    case Produce(value) => if Succ(s.wpos, s.max) == s.rpos then s else s.(producer := SlotFound(value))
    case Write =>
      if s.wpos < |s.buffer|
      then s.(buffer := s.buffer[s.wpos := s.producer.value], producer := SlotWritten(s.producer.value))
      else s.(stray := true, producer := SlotWritten(s.producer.value))
    case Advance =>
      s.(wpos := Succ(s.wpos, s.max), produced := s.produced + [s.producer.value], producer := OwesUp)
    case Signal => Up(s.(producer := Outside))
    case Get => s.(consumer := Test)
    case Look =>
      (match s.consumer
       case Test => s.(consumer := if s.rpos == s.wpos then TestStop else Got)
       case TestStop => s.(consumer := if s.stop then Away else AtZero)
       case _ => if s.sem > 0 then s.(sem := 0, consumer := Test) else s.(consumer := Blocked))
    case Next =>
      if s.rpos < |s.buffer|
      then s.(rpos := Succ(s.rpos, s.max), consumed := s.consumed + [s.buffer[s.rpos]], consumer := Away)
      else s.(rpos := Succ(s.rpos, s.max), stray := true, consumer := Away)
    case Stop => s.(stop := true, stopUps := s.stopUps + 1)
    case StopSignal => Up(s.(stopUps := s.stopUps - 1))
  }

  /** A ring in a dataspace with room for `n` items. */
  predicate Init(s: State, n: nat) {
    && |s.buffer| == n && s.max == PrevPow2(n)
    && s.rpos == 0 && s.wpos == 0 && s.sem == 0 && !s.stop && s.stopUps == 0
    && s.producer == Outside && s.consumer == Away && s.produced == [] && s.consumed == [] && !s.stray
  }

  predicate Run(s: State, run: seq<Action>, s': State)
    decreases |run|
  {
    if run == [] then s == s'
    else s.max > 0 && Enabled(s, run[0]) && Run(Step(s, run[0]), run[1..], s')
  }

  // ---------------------------------------------------------------- positions

  lemma {:induction false} SlotsDiffer(i: nat, j: nat, max: nat)
    requires i < j < i + max
    ensures i % max != j % max
  {
    var d := j / max - i / max;
    assert j - i == d * max + (j % max - i % max);
    assert d <= 0 ==> d * max <= 0;
    assert d >= 1 ==> d * max >= max;
  }

  lemma {:induction false} SlotsWrap(i: nat, max: nat)
    requires max > 0
    ensures (i + max) % max == i % max
  {
    assert i + max == (i / max + 1) * max + i % max;
    DivModUnique(i + max, max, i / max + 1, i % max);
  }

  lemma {:induction false} ModSucc(i: nat, p: nat)
    requires p > 0
    ensures (i % p + 1) % p == (i + 1) % p
  {
    var q, r := i / p, i % p;
    if r + 1 < p {
      DivModUnique(r + 1, p, 0, r + 1);
      DivModUnique(i + 1, p, q, r + 1);
    } else {
      assert i + 1 == (q + 1) * p + 0;
      DivModUnique(p, p, 1, 0);
      DivModUnique(i + 1, p, q + 1, 0);
    }
  }

  lemma {:induction false} SuccIs(i: nat, k: nat)
    ensures Succ(i % Pow2(k), Pow2(k)) == (i + 1) % Pow2(k)
  {
    hide And, Pow2;
    AndMask(i % Pow2(k) + 1, k);
    ModSucc(i, Pow2(k));
  }

  /** The test for a full ring, in terms of the number of outstanding items. */
  lemma {:induction false} FullTest(c: nat, p: nat, k: nat)
    requires c <= p < c + Pow2(k)
    ensures Succ(p % Pow2(k), Pow2(k)) == c % Pow2(k) <==> p + 1 == c + Pow2(k)
  {
    hide Pow2, Succ;
    SuccIs(p, k);
    if p + 1 < c + Pow2(k) { SlotsDiffer(c, p + 1, Pow2(k)); } else { SlotsWrap(c, Pow2(k)); }
  }

  lemma {:induction false} EmptyTest(c: nat, p: nat, max: nat)
    requires c <= p < c + max
    ensures c % max == p % max <==> c == p
  {
    if c < p { SlotsDiffer(c, p, max); }
  }

  // ---------------------------------------------------------------- the invariant

  function Outstanding(s: State): int {
    |s.produced| - |s.consumed|
  }

  /** Both positions follow the histories; the slots between them hold the outstanding items. */
  ghost predicate Fifo(s: State, k: nat) {
    && s.max == Pow2(k) && (s.max > 1 ==> s.max <= |s.buffer|) && !s.stray
    && s.consumed <= s.produced && Outstanding(s) < s.max
    && s.rpos == |s.consumed| % s.max && s.wpos == |s.produced| % s.max
    && (forall i :: |s.consumed| <= i < |s.produced| ==>
          i % s.max < |s.buffer| && s.buffer[i % s.max] == s.produced[i])
  }

  ghost predicate AtProducer(s: State) {
    && (s.producer.SlotFound? || s.producer.SlotWritten? ==> Outstanding(s) + 1 < s.max)
    && (s.producer.SlotWritten? ==> s.wpos < |s.buffer| && s.buffer[s.wpos] == s.producer.value)
  }

  /** Between testing for data and blocking, data implies a signal, sent or still owed. */
  ghost predicate AtConsumer(s: State) {
    && (s.consumer.Got? ==> Outstanding(s) > 0)
    && (s.consumer.TestStop? || s.consumer.AtZero? || s.consumer.Blocked? ==>
          Outstanding(s) > 0 ==> s.sem > 0 || s.producer.OwesUp?)
    && (s.consumer.AtZero? || s.consumer.Blocked? ==> s.stop ==> s.sem > 0 || s.stopUps > 0)
    && (s.consumer.Blocked? ==> s.sem == 0)
  }

  ghost predicate Inv(s: State, k: nat) {
    Fifo(s, k) && AtProducer(s) && AtConsumer(s)
  }

  lemma {:induction false} ProducerStep(s: State, a: Action, k: nat)
    requires Inv(s, k) && Enabled(s, a) && (a.Produce? || a.Write? || a.Signal?)
    ensures Inv(Step(s, a), k)
  {
    var c, p, m := |s.consumed|, |s.produced|, s.max;
    FullTest(c, p, k);
    hide Succ, Pow2;
    if a.Write? {
      assert m > 1;
      forall i | c <= i < p ensures i % m != p % m { SlotsDiffer(i, p, m); }
    }
  }

  lemma {:induction false} AdvanceStep(s: State, k: nat)
    requires Inv(s, k) && Enabled(s, Advance)
    ensures Inv(Step(s, Advance), k)
  {
    SuccIs(|s.produced|, k);
    hide Succ, Pow2;
  }

  lemma {:induction false} ConsumerStep(s: State, a: Action, k: nat)
    requires Inv(s, k) && Enabled(s, a) && (a.Get? || a.Look?)
    ensures Inv(Step(s, a), k)
  {
    EmptyTest(|s.consumed|, |s.produced|, s.max);
    hide Succ, Pow2;
  }

  lemma {:induction false} NextStep(s: State, k: nat)
    requires Inv(s, k) && Enabled(s, Next)
    ensures Inv(Step(s, Next), k)
    ensures Step(s, Next).consumed == s.consumed + [s.produced[|s.consumed|]]
  {
    SuccIs(|s.consumed|, k);
    hide Succ, Pow2;
  }

  lemma {:induction false} StopStep(s: State, a: Action, k: nat)
    requires Inv(s, k) && Enabled(s, a) && (a.Stop? || a.StopSignal?)
    ensures Inv(Step(s, a), k)
  {}

  lemma {:induction false} InvStep(s: State, a: Action, k: nat)
    requires Inv(s, k) && Enabled(s, a)
    ensures Inv(Step(s, a), k)
  {
    hide Step;
    match a {
      case Advance => AdvanceStep(s, k);
      case Next => NextStep(s, k);
      case Get => ConsumerStep(s, a, k);
      case Look => ConsumerStep(s, a, k);
      case Stop => StopStep(s, a, k);
      case StopSignal => StopStep(s, a, k);
      case _ => ProducerStep(s, a, k);
    }
  }

  lemma {:induction false} InvRun(s: State, run: seq<Action>, s': State, k: nat)
    requires Inv(s, k) && Run(s, run, s')
    ensures Inv(s', k)
    decreases |run|
  {
    if run != [] {
      hide Inv, Step, Enabled;
      InvStep(s, run[0], k);
      InvRun(Step(s, run[0]), run[1..], s', k);
    }
  }

  lemma {:induction false} InitInv(s: State, n: nat)
    requires Init(s, n) && n != 1
    ensures Inv(s, PrevPow2Shift(n))
  {
    PrevPow2RoundsDown(n);
    hide PrevPow2Shift, IsPow2;
    DivModUnique(0, s.max, 0, 0);
  }

  // ---------------------------------------------------------------- what a run has passed on

  /** The values of the produce() calls of the run that found a slot. */
  function Accepted(s: State, run: seq<Action>): seq<int>
    decreases |run|
  {
    if run == [] || s.max == 0 || !Enabled(s, run[0]) then [] else
      var s' := Step(s, run[0]);
      (if run[0].Produce? && s'.producer.SlotFound? then [run[0].value] else []) + Accepted(s', run[1..])
  }

  /** The item a running produce() is about to add. */
  function InHand(p: Producer): seq<int> {
    if p.SlotFound? || p.SlotWritten? then [p.value] else []
  }

  function Nexts(run: seq<Action>): nat {
    if run == [] then 0 else (if run[0].Next? then 1 else 0) + Nexts(run[1..])
  }

  lemma {:induction false} AcceptedStep(s: State, a: Action)
    requires s.max > 0 && Enabled(s, a)
    ensures var s' := Step(s, a);
            s.produced + InHand(s.producer) + (if a.Produce? && s'.producer.SlotFound? then [a.value] else [])
            == s'.produced + InHand(s'.producer)
  {}

  /** Nothing but the accepted values is produced, in the order of the calls. */
  lemma {:induction false} ProducedAreAccepted(s: State, run: seq<Action>, s': State)
    requires Run(s, run, s')
    ensures s.produced + InHand(s.producer) + Accepted(s, run) == s'.produced + InHand(s'.producer)
    decreases |run|
  {
    if run != [] {
      AcceptedStep(s, run[0]);
      hide Step, InHand, Enabled;
      ProducedAreAccepted(Step(s, run[0]), run[1..], s');
    }
  }

  lemma {:induction false} ConsumedStep(s: State, a: Action, k: nat)
    requires Inv(s, k) && Enabled(s, a)
    ensures |Step(s, a).consumed| == |s.consumed| + (if a.Next? then 1 else 0)
  {
    hide Succ, Pow2;
    if a.Next? { NextStep(s, k); }
  }

  /** Each next() releases one item. */
  lemma {:induction false} ConsumedAreNexts(s: State, run: seq<Action>, s': State, k: nat)
    requires Inv(s, k) && Run(s, run, s')
    ensures |s'.consumed| == |s.consumed| + Nexts(run)
    decreases |run|
  {
    if run != [] {
      hide Inv, Step, Enabled;
      InvStep(s, run[0], k);
      ConsumedStep(s, run[0], k);
      ConsumedAreNexts(Step(s, run[0]), run[1..], s', k);
    }
  }

  // ---------------------------------------------------------------- main results

  /**
   Under every interleaving the items the consumer has released are the first values that
   produce() has accepted, at most max-1 items are outstanding, and neither side touches memory
   outside the buffer. The ring must not have been set up with room for exactly one item, see
   OneSlotRingStrays.
   */
  lemma {:induction false} RingIsFifo(s: State, run: seq<Action>, s': State, n: nat)
    requires Init(s, n) && n != 1 && Run(s, run, s')
    ensures s'.consumed <= s'.produced && |s'.produced| - |s'.consumed| <= s'.max - 1
    ensures s'.produced + InHand(s'.producer) == Accepted(s, run)
    ensures Nexts(run) <= |Accepted(s, run)| && s'.consumed == Accepted(s, run)[..Nexts(run)]
    ensures !s'.stray
  {
    InitInv(s, n);
    InvRun(s, run, s', PrevPow2Shift(n));
    ProducedAreAccepted(s, run, s');
    ConsumedAreNexts(s, run, s', PrevPow2Shift(n));
    assert s.produced + InHand(s.producer) + Accepted(s, run) == Accepted(s, run);
    hide Run, Init, Pow2, PrevPow2Shift, InHand, Accepted, Nexts;
  }

  /** produce() finds a slot exactly if fewer than max-1 items are outstanding. */
  lemma {:induction false} ProduceExactly(s: State, run: seq<Action>, s': State, n: nat, value: int)
    requires Init(s, n) && n != 1 && Run(s, run, s') && s'.max > 0 && s'.producer.Outside?
    ensures Step(s', Produce(value)).producer ==
            if |s'.produced| - |s'.consumed| < s'.max - 1 then SlotFound(value) else Outside
  {
    InitInv(s, n);
    InvRun(s, run, s', PrevPow2Shift(n));
    hide Run, Init, Pow2, PrevPow2Shift, Succ;
    FullTest(|s'.consumed|, |s'.produced|, PrevPow2Shift(n));
  }

  /** get() finds an item exactly if one is outstanding, and it is the oldest one. */
  lemma {:induction false} GetExactly(s: State, run: seq<Action>, s': State, n: nat)
    requires Init(s, n) && n != 1 && Run(s, run, s') && s'.max > 0 && s'.consumer.Test?
    ensures Step(s', Look).consumer == if |s'.produced| > |s'.consumed| then Got else TestStop
    ensures |s'.produced| > |s'.consumed| ==>
              s'.rpos < |s'.buffer| && s'.buffer[s'.rpos] == s'.produced[|s'.consumed|]
  {
    InitInv(s, n);
    InvRun(s, run, s', PrevPow2Shift(n));
    hide Run, Init, Pow2, PrevPow2Shift, Succ;
    EmptyTest(|s'.consumed|, |s'.produced|, s'.max);
  }

  /** The producer never writes the slot the consumer got and has not released. */
  lemma {:induction false} NoWriteToHeldSlot(s: State, run: seq<Action>, s': State, n: nat)
    requires Init(s, n) && n != 1 && Run(s, run, s')
    requires s'.producer.SlotFound? && s'.consumer.Got?
    ensures s'.wpos != s'.rpos
  {
    InitInv(s, n);
    InvRun(s, run, s', PrevPow2Shift(n));
    hide Run, Init, Pow2, PrevPow2Shift;
    SlotsDiffer(|s'.consumed|, |s'.produced|, s'.max);
  }

  /**
   No lost wakeup: whenever the consumer waits or is about to wait although there is data, the
   semaphore is positive or the producer is about to signal it; and likewise for stop().
   */
  lemma {:induction false} NoLostWakeup(s: State, run: seq<Action>, s': State, n: nat)
    requires Init(s, n) && n != 1 && Run(s, run, s')
    requires s'.consumer.AtZero? || s'.consumer.Blocked?
    ensures s'.rpos != s'.wpos ==> s'.sem > 0 || s'.producer.OwesUp?
    ensures s'.stop ==> s'.sem > 0 || s'.stopUps > 0
  {
    InitInv(s, n);
    InvRun(s, run, s', PrevPow2Shift(n));
    hide Run, Init, Pow2, PrevPow2Shift;
  }

  /**
   prev_pow2(1) is 2, so with room for one item the second item is written behind the buffer:
   produce, get and release one item, then produce another one.
   */
  lemma {:induction false} OneSlotRingStrays(s: State)
    requires Init(s, 1)
    ensures exists run, s' :: Run(s, run, s') && s'.stray
  {
    PrevPow2RoundsDown(1);
    hide PrevPow2, Run;
    FirstItemStrays(s);
  }

  lemma {:induction false} FirstItemStrays(s: State)
    requires s.max == 2 && |s.buffer| == 1 && s.rpos == 0 && s.wpos == 0
    requires s.consumer == Away && s.producer == Outside
    ensures Strays(s)
  {
    TwoSlots();
    hide Succ, Run;
    var s2 := Step(Step(s, Produce(7)), Write);
    SecondItemStrays(Step(Step(s2, Advance), Signal));
    StraysBefore(Step(s2, Advance), Signal);
    StraysBefore(s2, Advance);
    StraysBefore(Step(s, Produce(7)), Write);
    StraysBefore(s, Produce(7));
  }

  /** Accesses stay within the buffer in every run exactly if the room is not one item. */
  lemma {:induction false} RingStraysExactly(s: State, n: nat)
    requires Init(s, n)
    ensures Strays(s) <==> n == 1
  {
    hide Init, Run;
    if n == 1 {
      OneSlotRingStrays(s);
    } else {
      forall run, s' | Run(s, run, s') ensures !s'.stray { RingIsFifo(s, run, s', n); }
    }
  }

  ghost predicate Strays(s: State) {
    exists run, s' :: Run(s, run, s') && s'.stray
  }

  lemma {:induction false} TwoSlots()
    ensures Succ(0, 2) == 1 && Succ(1, 2) == 0
  {
    assert And(1, 1) == 1 && And(2, 1) == 0;
  }

  lemma {:induction false} SecondItemStrays(s: State)
    requires s.max == 2 && |s.buffer| == 1 && s.rpos == 0 && s.wpos == 1
    requires s.consumer == Away && s.producer == Outside
    ensures Strays(s)
  {
    TwoSlots();
    hide Succ, Run;
    var s3 := Step(Step(Step(s, Get), Look), Next);
    var s4 := Step(s3, Produce(8));
    StraysNow(Step(s4, Write));
    StraysBefore(s4, Write);
    StraysBefore(s3, Produce(8));
    StraysBefore(Step(Step(s, Get), Look), Next);
    StraysBefore(Step(s, Get), Look);
    StraysBefore(s, Get);
  }

  lemma {:induction false} StraysNow(s: State)
    requires s.stray
    ensures Strays(s)
  {
    assert Run(s, [], s);
  }

  lemma {:induction false} StraysBefore(s: State, a: Action)
    requires s.max > 0 && Enabled(s, a) && Strays(Step(s, a))
    ensures Strays(s)
  {
    var run, s' :| Run(Step(s, a), run, s') && s'.stray;
    assert ([a] + run)[1..] == run;
    assert Run(s, [a] + run, s');
  }

  /** An empty ring accepts an item exactly if the dataspace has room for neither 0 nor 3 items. */
  lemma {:induction false} EmptyRingAccepts(s: State, n: nat, value: int)
    requires Init(s, n)
    ensures Step(s, Produce(value)).producer.SlotFound? <==> n != 0 && n != 3
  {
    var k := PrevPow2Shift(n);
    FullTest(0, 0, k);
    DivModUnique(0, s.max, 0, 0);
    MaxAtLeastTwo(n);
  }

  lemma {:induction false} MaxAtLeastTwo(n: nat)
    ensures PrevPow2(n) >= 2 <==> n != 0 && n != 3
  {
    PrevPow2RoundsDown(n);
    if 2 <= n <= 3 {
      assert And(1, 0) == 0;
      assert And(3, 2) == 2;
      assert BitScanReverse(3) == 1 && BitScanReverse(2) == 1;
      assert IsPow2(2) && !IsPow2(3);
    } else if n >= 4 {
      hide IsPow2, BitScanReverse;
    }
  }

  // ---------------------------------------------------------------- delivery

  /** Some run without a new item lets the consumer take everything that is in the ring. */
  ghost predicate CanDeliver(s: State) {
    exists run, s' :: Run(s, run, s') && s'.produced == s.produced == s'.consumed
  }

  lemma {:induction false} DeliversAfter(s: State, a: Action)
    requires s.max > 0 && Enabled(s, a) && Step(s, a).produced == s.produced && CanDeliver(Step(s, a))
    ensures CanDeliver(s)
  {
    var run, s' :| Run(Step(s, a), run, s') && s'.produced == Step(s, a).produced == s'.consumed;
    assert ([a] + run)[1..] == run;
    assert Run(s, [a] + run, s');
  }

  /** Steps until the consumer has got an outstanding item. */
  function Distance(c: Consumer): nat {
    match c
    case Got => 0
    case Test => 1
    case Away => 2
    case Blocked => 2
    case AtZero => 3
    case TestStop => 4
  }

  /** While an item is outstanding, the consumer or the signal it is owed brings it closer. */
  lemma {:induction false} DeliveryStep(s: State, k: nat) returns (a: Action)
    requires Inv(s, k) && Outstanding(s) > 0
    ensures Enabled(s, a) && Inv(Step(s, a), k) && Step(s, a).produced == s.produced
    ensures Outstanding(Step(s, a)) < Outstanding(s)
            || (Outstanding(Step(s, a)) == Outstanding(s) && Distance(Step(s, a).consumer) < Distance(s.consumer))
  {
    a := match s.consumer
         case Away => Get
         case Got => Next
         case Blocked => Signal
         case _ => Look;
    InvStep(s, a, k);
    if a == Next { NextStep(s, k); }
    EmptyTest(|s.consumed|, |s.produced|, s.max);
    hide Succ, Pow2;
  }

  lemma {:induction false} Delivers(s: State, k: nat)
    requires Inv(s, k)
    ensures CanDeliver(s)
    decreases Outstanding(s), Distance(s.consumer)
  {
    if Outstanding(s) == 0 {
      assert Run(s, [], s);
    } else {
      var a := DeliveryStep(s, k);
      hide CanDeliver, Step;
      Delivers(Step(s, a), k);
      DeliversAfter(s, a);
    }
  }

  /** From every reachable state, the consumer can still take everything that was produced. */
  lemma {:induction false} NothingIsStranded(s: State, run: seq<Action>, s': State, n: nat)
    requires Init(s, n) && n != 1 && Run(s, run, s')
    ensures CanDeliver(s')
  {
    InitInv(s, n);
    InvRun(s, run, s', PrevPow2Shift(n));
    hide Run, Init, Inv, PrevPow2Shift;
    Delivers(s', PrevPow2Shift(n));
  }

  /** Signals do not pile up: a consumer with nothing to do tests the ring at most twice and then blocks. */
  lemma {:induction false} IdleConsumerBlocks(s: State) returns (s': State)
    requires s.max > 0 && s.consumer.Test? && s.rpos == s.wpos && !s.stop
    ensures Run(s, if s.sem == 0 then [Look, Look, Look] else [Look, Look, Look, Look, Look, Look], s')
    ensures s'.consumer.Blocked?
  {
    s' := s.(consumer := Blocked, sem := 0);
    ThreeLooks(s.(sem := 0), s');
    if s.sem > 0 {
      var looks := [Look, Look, Look];
      assert (looks + looks)[1..][1..][1..] == looks;
      assert Run(s, looks + looks, s');
    }
  }

  lemma {:induction false} ThreeLooks(s: State, s': State)
    requires s.max > 0 && s.consumer.Test? && s.rpos == s.wpos && !s.stop && s.sem == 0
    requires s' == s.(consumer := Blocked)
    ensures Run(s, [Look, Look, Look], s')
  {
    var looks := [Look, Look, Look];
    assert looks[1..] == [Look, Look] && looks[1..][1..] == [Look] && looks[1..][1..][1..] == [];
    assert Run(Step(Step(Step(s, Look), Look), Look), [], s');
    assert Run(Step(Step(s, Look), Look), [Look], s');
    assert Run(Step(s, Look), [Look, Look], s');
  }

  // ---------------------------------------------------------------- get() returning null

  /** Until the consumer looks at _stop, only the producer moves, and only by advancing. */
  lemma {:induction false} WhileTesting(s: State, run: seq<Action>, s': State, k: nat)
    requires Inv(s, k) && s.consumer.TestStop? && Run(s, run, s') && Look !in run
    ensures s'.consumer.TestStop? && s'.consumed == s.consumed && |s.produced| <= |s'.produced|
    ensures |s'.produced| == |s.produced| <==> Advance !in run
    decreases |run|
  {
    if run != [] {
      var t := Step(s, run[0]);
      InvStep(s, run[0], k);
      assert run == [run[0]] + run[1..];
      hide Inv, Run, Succ;
      assert t.consumer.TestStop? && t.consumed == s.consumed;
      WhileTesting(t, run[1..], s', k);
    }
  }

  /**
   get() returns null exactly if it finds a stop request after it has found the ring empty. The
   ring is then still empty exactly if nothing was produced between the two reads, whereas the
   documentation promises that there is no data anymore.
   */
  lemma {:induction false} NullExactly(s: State, run: seq<Action>, t: State, run': seq<Action>, s': State, n: nat)
    requires Init(s, n) && n != 1 && Run(s, run, t) && t.max > 0 && t.consumer.Test? && t.rpos == t.wpos
    requires Run(Step(t, Look), run', s') && Look !in run'
    ensures s'.max > 0 && s'.consumer.TestStop? && (Step(s', Look).consumer == Away <==> s'.stop)
    ensures s'.rpos == s'.wpos <==> Advance !in run'
  {
    var k := PrevPow2Shift(n);
    InitInv(s, n);
    InvRun(s, run, t, k);
    InvStep(t, Look, k);
    WhileTesting(Step(t, Look), run', s', k);
    InvRun(Step(t, Look), run', s', k);
    hide Run, Init, Pow2, PrevPow2Shift;
    EmptyTest(|t.consumed|, |t.produced|, t.max);
    EmptyTest(|s'.consumed|, |s'.produced|, s'.max);
  }

  /** get() is about to return null although there is data. */
  predicate AboutToMiss(s: State) {
    s.consumer.TestStop? && s.stop && s.rpos != s.wpos
  }

  ghost predicate CanMiss(s: State) {
    exists run, s' :: Run(s, run, s') && AboutToMiss(s')
  }

  lemma {:induction false} MissesNow(s: State)
    requires AboutToMiss(s)
    ensures CanMiss(s)
  {
    assert Run(s, [], s);
  }

  lemma {:induction false} MissesBefore(s: State, a: Action)
    requires s.max > 0 && Enabled(s, a) && CanMiss(Step(s, a))
    ensures CanMiss(s)
  {
    var run, s' :| Run(Step(s, a), run, s') && AboutToMiss(s');
    assert ([a] + run)[1..] == run;
    assert Run(s, [a] + run, s');
  }

  /** Test the empty ring, produce, stop, read _stop. */
  lemma {:induction false} FirstItemMissed(s: State)
    requires s.max > 0 && s.rpos == 0 && s.wpos == 0 && s.consumer == Away && s.producer == Outside
    requires Succ(0, s.max) != 0
    ensures CanMiss(s)
  {
    hide Succ, Run;
    var s1 := Step(s, Get);
    var s2 := Step(s1, Look);
    var s3 := Step(s2, Produce(7));
    var s4 := Step(s3, Write);
    var s5 := Step(s4, Advance);
    MissesNow(Step(s5, Stop));
    MissesBefore(s5, Stop);
    MissesBefore(s4, Advance);
    MissesBefore(s3, Write);
    MissesBefore(s2, Produce(7));
    MissesBefore(s1, Look);
    MissesBefore(s, Get);
  }

  /** A ring has a run in which get() misses data exactly if it accepts items at all. */
  lemma {:induction false} GetMissesExactly(s: State, n: nat)
    requires Init(s, n)
    ensures CanMiss(s) <==> n != 0 && n != 3
  {
    if n != 0 && n != 3 {
      EmptyRingAccepts(s, n, 7);
      hide Succ, Run, PrevPow2;
      FirstItemMissed(s);
    } else {
      MaxAtLeastTwo(n);
      InitInv(s, n);
      hide Inv, Init, Run, PrevPow2Shift;
      forall run, s' | Run(s, run, s') ensures !AboutToMiss(s') {
        InvRun(s, run, s', PrevPow2Shift(n));
        OneSlotEmpty(s', PrevPow2Shift(n));
      }
    }
  }

  lemma {:induction false} OneSlotEmpty(s: State, k: nat)
    requires Inv(s, k) && Pow2(k) < 2
    ensures s.rpos == s.wpos
  {}
}
