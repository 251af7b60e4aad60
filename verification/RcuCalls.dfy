/**
 What the calls of nre/include/RCU.h achieve, over the runs of module Rcu: which objects
 invalidate() and gc() delete, how many steps they take, and what the readers' counters mean.
 */
module RcuCalls {
  import opened Bits
  import opened Rcu

  // ---------------------------------------------------------------- section numbers

  /** The prefix of _versions that holds snapshots and not freshly allocated words. */
  function Stored(s: State): nat {
    match s.writer
    case Snap(_, i) => i
    case Store(i) => i
    case Realloc => 0
    case _ => |s.versions|
  }

  /** The upper half of a counter is the number of the section in 16 bits; snapshots are of the past. */
  ghost predicate Numbered(s: State) {
    && (forall t :: 0 <= t < |s.threads| ==> Version(s.threads[t].counter) == s.threads[t].section % NEST)
    && (forall t :: 0 <= t < Stored(s) && t < |s.versions| ==>
          Version(s.versions[t].counter) == s.versions[t].section % NEST)
    && (forall t :: 0 <= t < Stored(s) && t < |s.versions| && t < |s.threads| ==>
          s.versions[t].section <= s.threads[t].section)
  }

  lemma {:induction false} ModSucc(n: nat)
    ensures (n % NEST + 1) % NEST == (n + 1) % NEST
  {}

  lemma {:induction false} EnterNumbered(s: State, t: nat)
    requires CountersOk(s) && Numbered(s) && Enabled(s, Enter(t))
    ensures Numbered(Step(s, Enter(t)))
  {
    var th := s.threads[t];
    DownFacts(th.counter);
    ModSucc(th.section);
    hide Down;
  }

  lemma {:induction false} WriterNumbered(s: State, junk: nat)
    requires Inv(s) && Numbered(s) && s.writer != Idle && Enabled(s, WriterStep(junk))
    ensures Numbered(Continue(s, junk))
  {
    hide Ledger, Safe, CountersOk, Covered, Unheld, NoMark;
  }

  lemma {:induction false} NumberedStep(s: State, a: Action)
    requires Inv(s) && Numbered(s) && Enabled(s, a)
    ensures Numbered(Step(s, a))
  {
    match a {
      case Enter(t) => EnterNumbered(s, t);
      case Leave(t) => UpFacts(s.threads[t].counter);
      case WriterStep(junk) => WriterNumbered(s, junk);
      case _ => hide Ledger, Safe, AtWriter;
    }
  }

  lemma {:induction false} NumberedRun(s: State, run: seq<Action>, s': State)
    requires Inv(s) && Numbered(s) && Run(s, run, s')
    ensures Inv(s') && Numbered(s')
    decreases |run|
  {
    if run != [] {
      hide Inv, Numbered, Step;
      InvStep(s, run[0]);
      NumberedStep(s, run[0]);
      NumberedRun(Step(s, run[0]), run[1..], s');
    }
  }

  lemma {:induction false} Reached(s: State, run: seq<Action>, s': State)
    requires Init(s) && Run(s, run, s')
    ensures Inv(s') && Numbered(s')
  {
    InitInv(s);
    hide Inv;
    NumberedRun(s, run, s');
  }

  // ---------------------------------------------------------------- what the counters mean

  /** A reader without packed counters. */
  datatype Reader = Reader(depth: nat, section: nat, held: set<Obj>)

  function Moved(r: Reader, t: nat, a: Action): Reader {
    match a
    case Enter(u) =>
      if u != t then r else Reader(r.depth + 1, if r.depth == 0 then r.section + 1 else r.section, r.held)
    case Leave(u) =>
      if u != t || r.depth == 0 then r else Reader(r.depth - 1, r.section, if r.depth == 1 then {} else r.held)
    case Fetch(u, o) => if u != t then r else r.(held := r.held + {o})
    case _ => r
  }

  function History(r: Reader, t: nat, run: seq<Action>): Reader
    decreases |run|
  {
    if run == [] then r else History(Moved(r, t, run[0]), t, run[1..])
  }

  function ReaderOf(s: State, t: nat): Reader {
    if t < |s.threads| then Reader(Nesting(s.threads[t].counter), s.threads[t].section, s.threads[t].held)
    else Reader(0, 0, {})
  }

  lemma {:induction false} ReaderMoves(s: State, a: Action, t: nat)
    requires CountersOk(s) && Enabled(s, a)
    ensures ReaderOf(Step(s, a), t) == Moved(ReaderOf(s, t), t, a)
  {
    if a.Enter? { DownFacts(s.threads[a.t].counter); }
    if a.Leave? { UpFacts(s.threads[a.t].counter); }
    hide Down;
  }

  lemma {:induction false} ReaderRuns(s: State, run: seq<Action>, s': State, t: nat)
    requires Inv(s) && Run(s, run, s')
    ensures ReaderOf(s', t) == History(ReaderOf(s, t), t, run)
    decreases |run|
  {
    if run != [] {
      hide Step, Moved, ReaderOf, AtWriter, Ledger, Safe, CountersOk;
      InvStep(s, run[0]);
      ReaderMoves(s, run[0], t);
      ReaderRuns(Step(s, run[0]), run[1..], s', t);
    }
  }

  /**
   In every run the two halves of a counter are the nesting depth and the number of sections
   entered, in 16 bits, and the thread holds what it fetched in its current section.
   */
  lemma {:induction false} CounterIsHistory(s: State, run: seq<Action>, s': State, t: nat)
    requires Init(s) && Run(s, run, s') && t < |s'.threads|
    ensures var r := History(Reader(0, 0, {}), t, run);
            && s'.threads[t].counter == r.section % NEST * NEST + r.depth
            && s'.threads[t].held == r.held
  {
    Reached(s, run, s');
    InitInv(s);
    ReaderRuns(s, run, s', t);
    hide Run, History;
  }

  function Added(run: seq<Action>): nat {
    if run == [] then 0 else (if run[0].AddThread? then 1 else 0) + Added(run[1..])
  }

  /** The objects passed to invalidate(), newest first. */
  function Retired(run: seq<Action>): seq<Obj> {
    if run == [] then [] else Retired(run[1..]) + (if run[0].StartInvalidate? then [run[0].o] else [])
  }

  function Visible(published: set<Obj>, a: Action): set<Obj> {
    match a
    case Publish(o) => published + {o}
    case Unpublish(o) => published - {o}
    case _ => published
  }

  function VisibleAll(published: set<Obj>, run: seq<Action>): set<Obj>
    decreases |run|
  {
    if run == [] then published else VisibleAll(Visible(published, run[0]), run[1..])
  }

  lemma {:induction false} ListsStep(s: State, a: Action)
    requires Enabled(s, a)
    ensures |Step(s, a).threads| == |s.threads| + (if a.AddThread? then 1 else 0)
    ensures Step(s, a).published == Visible(s.published, a)
    ensures Step(s, a).invalidated == (if a.StartInvalidate? then [a.o] else []) + s.invalidated
  {}

  lemma {:induction false} InvalidatedIsHistory(s: State, run: seq<Action>, s': State)
    requires Run(s, run, s')
    ensures s'.invalidated == Retired(run) + s.invalidated
    decreases |run|
  {
    if run != [] {
      hide Step, Enabled;
      ListsStep(s, run[0]);
      InvalidatedIsHistory(Step(s, run[0]), run[1..], s');
    }
  }

  /** The lists of threads, published and invalidated objects follow the calls. */
  lemma {:induction false} ListsAreHistory(s: State, run: seq<Action>, s': State)
    requires Run(s, run, s')
    ensures |s'.threads| == |s.threads| + Added(run)
    ensures s'.published == VisibleAll(s.published, run)
    ensures s'.invalidated == Retired(run) + s.invalidated
    decreases |run|
  {
    if run != [] {
      hide Step, Enabled, Visible, Retired;
      ListsStep(s, run[0]);
      ListsAreHistory(Step(s, run[0]), run[1..], s');
    }
    InvalidatedIsHistory(s, run, s');
  }

  // ---------------------------------------------------------------- the scan

  /** Thread `t` is in a section with the same number, in 16 bits, as the one of its snapshot. */
  predicate Inside(s: State, t: nat) {
    && t < |s.threads| && t < |s.versions| && Nesting(s.threads[t].counter) > 0
    && s.threads[t].section % NEST == s.versions[t].section % NEST
  }

  predicate Deciding(w: Writer) { w.Check? || w.Snap? || w.Scan? }

  /** The loop of deletable() is about to look at a thread that is inside. */
  predicate Refused(s: State) {
    s.writer.Scan? && s.writer.i < |s.threads| && Inside(s, s.writer.i)
  }

  /** Until deletable() returns, each thread has left its section when the loop looks at it. */
  predicate AllPass(s: State, run: seq<Action>)
    decreases |run|
  {
    run == [] || !Deciding(s.writer) || !Enabled(s, run[0]) ||
    (!(run[0].WriterStep? && Refused(s)) && AllPass(Step(s, run[0]), run[1..]))
  }

  lemma {:induction false} RefusedExactly(s: State, i: nat)
    requires Inv(s) && Numbered(s) && s.writer.Scan? && i < |s.threads|
    ensures |s.versions| == |s.threads|
    ensures Passed(s.threads[i].counter, s.versions[i].counter) <==> !Inside(s, i)
  {
    hide Ledger, CountersOk, Safe, Covered, Unheld, NoMark;
  }

  // ---------------------------------------------------------------- calls

  /** A run in which the lock is held in every state but the last one. */
  predicate Busy(s: State, run: seq<Action>, s': State)
    decreases |run|
  {
    if run == [] then s == s'
    else s.writer != Idle && Enabled(s, run[0]) && Busy(Step(s, run[0]), run[1..], s')
  }

  ghost predicate Marked(s: State) {
    exists k :: 0 <= k < |s.pending| && s.pending[k].deletable
  }

  /** How many objects the running call leaves in the list. */
  ghost function Remaining(s: State, run: seq<Action>): nat {
    match s.writer
    case Sweep(op, i, found) => if found || Marked(s) then Mark(op) else |s.pending|
    case Idle => |s.pending|
    case Realloc => |s.pending|
    case Store(i) => |s.pending|
    case _ => if s.writer.op == ForcedGc || AllPass(s, run) then Mark(s.writer.op) else |s.pending|
  }

  /** The actions of the readers and of the code that publishes objects. */
  predicate OtherAction(a: Action) {
    a.Enter? || a.Leave? || a.Fetch? || a.Publish? || a.Unpublish?
  }

  lemma {:induction false} OtherKeeps(s: State, a: Action)
    requires s.writer != Idle && Enabled(s, a) && !a.WriterStep?
    ensures OtherAction(a)
    ensures var s' := Step(s, a);
            && s'.writer == s.writer && s'.pending == s.pending && s'.invalidated == s.invalidated
            && s'.versions == s.versions && |s'.threads| == |s.threads|
  {}

  lemma {:induction false} SweepRemains(s: State, junk: nat, rest: seq<Action>)
    requires AtWriter(s) && s.writer.Sweep? && Enabled(s, WriterStep(junk))
    ensures Remaining(s, [WriterStep(junk)] + rest) == Remaining(Continue(s, junk), rest)
  {
    hide Covered, Unheld, AllPass;
    var i := s.writer.i;
    if i < |s.pending| && !s.writer.found && s.pending[i].deletable { assert Marked(s); }
  }

  lemma {:induction false} ScanRemains(s: State, run: seq<Action>)
    requires Inv(s) && Numbered(s) && s.writer.Scan? && run != [] && run[0].WriterStep? && Enabled(s, run[0])
    ensures Remaining(s, run) == Remaining(Step(s, run[0]), run[1..])
  {
    var i, s' := s.writer.i, Step(s, run[0]);
    assert NoMark(s);
    if i < |s.threads| {
      RefusedExactly(s, i);
      hide Inv, Numbered, Passed, Inside;
      assert Passed(s.threads[i].counter, s.versions[i].counter) || !Marked(s');
    } else {
      hide Inv, Numbered, Passed, Inside;
      assert s'.pending[Mark(s.writer.op)].deletable;
      assert Marked(s') && !Refused(s) && AllPass(s', run[1..]);
    }
  }

  lemma {:induction false} DecidingRemains(s: State, run: seq<Action>)
    requires Inv(s) && Numbered(s) && Deciding(s.writer) && run != [] && run[0].WriterStep? && Enabled(s, run[0])
    ensures Remaining(s, run) == Remaining(Step(s, run[0]), run[1..])
  {
    hide Inv, Numbered;
    if s.writer.Scan? { ScanRemains(s, run); }
  }

  lemma {:induction false} RemainingStep(s: State, run: seq<Action>)
    requires Inv(s) && Numbered(s) && s.writer != Idle && run != [] && Enabled(s, run[0])
    ensures Remaining(s, run) == Remaining(Step(s, run[0]), run[1..])
  {
    var a := run[0];
    if !a.WriterStep? {
      OtherKeeps(s, a);
      hide Inv, Numbered, Step, Enabled;
    } else if Deciding(s.writer) {
      DecidingRemains(s, run);
    } else if s.writer.Sweep? {
      assert run == [a] + run[1..];
      SweepRemains(s, a.junk, run[1..]);
    }
  }

  /** No call but invalidate() itself adds to the objects that were invalidated. */
  lemma {:induction false} WriterKeepsInvalidated(s: State, a: Action)
    requires s.writer != Idle && Enabled(s, a)
    ensures Step(s, a).invalidated == s.invalidated && |Step(s, a).threads| == |s.threads|
  {}

  lemma {:induction false} CallLeaves(s: State, run: seq<Action>, s': State)
    requires Inv(s) && Numbered(s) && Busy(s, run, s') && s'.writer == Idle
    ensures |s'.pending| == Remaining(s, run) && s'.invalidated == s.invalidated && Inv(s')
    decreases |run|
  {
    if run != [] {
      hide Inv, Numbered, Step, Remaining, Enabled;
      InvStep(s, run[0]);
      NumberedStep(s, run[0]);
      RemainingStep(s, run);
      WriterKeepsInvalidated(s, run[0]);
      CallLeaves(Step(s, run[0]), run[1..], s');
    }
  }

  /** The object a call adds to the list. */
  function Fresh(a: Action): seq<Obj> {
    if a.StartInvalidate? then [a.o] else []
  }

  predicate IsCall(a: Action) { a.StartGc? || a.StartInvalidate? }

  lemma {:induction false} IdleLedger(s: State)
    requires Inv(s) && s.writer == Idle
    ensures s.invalidated == Objs(s.pending) + s.gone && |Objs(s.pending)| == |s.pending|
  {
    hide CountersOk, Safe, AtWriter;
  }

  lemma {:induction false} CallStarts(s: State, a: Action, run: seq<Action>)
    requires Inv(s) && IsCall(a) && Enabled(s, a)
    ensures Step(s, a).invalidated == Fresh(a) + s.invalidated
    ensures Remaining(Step(s, a), run) ==
            if a == StartGc(true) || AllPass(Step(s, a), run) then |Fresh(a)| else |Fresh(a)| + |s.pending|
  {
    hide Inv;
  }

  /**
   What a call deletes. gc(true) returns with an empty list. gc(false) and invalidate() delete
   everything that was pending before, exactly if each thread has left the section of its
   snapshot when deletable() looks at it; otherwise they delete nothing. What invalidate() was
   called with stays in the list.
   */
  lemma {:induction false} CallExactly(s0: State, run0: seq<Action>, s: State, a: Action, run: seq<Action>, s': State)
    requires Init(s0) && Run(s0, run0, s) && IsCall(a) && Enabled(s, a)
    requires Busy(Step(s, a), run, s') && s'.writer == Idle
    ensures if a == StartGc(true) || AllPass(Step(s, a), run)
            then Objs(s'.pending) == Fresh(a) && s'.gone == Objs(s.pending) + s.gone
            else Objs(s'.pending) == Fresh(a) + Objs(s.pending) && s'.gone == s.gone
  {
    hide Inv, Numbered, Step, Remaining, AllPass, Busy, Run, Init, Objs, Fresh;
    Reached(s0, run0, s);
    InvStep(s, a);
    NumberedStep(s, a);
    CallStarts(s, a, run);
    CallLeaves(Step(s, a), run, s');
    var f, rest, gone := Fresh(a), Objs(s.pending), s.gone;
    assert s.writer == Idle by { assert a.StartGc? || a.StartInvalidate?; }
    IdleLedger(s);
    IdleLedger(s');
    SplitAt(f, rest, gone, Objs(s'.pending), s'.gone);
  }

  lemma {:induction false} SplitAt(f: seq<Obj>, rest: seq<Obj>, gone: seq<Obj>, pending: seq<Obj>, gone': seq<Obj>)
    requires f + (rest + gone) == pending + gone'
    ensures |pending| == |f| ==> pending == f && gone' == rest + gone
    ensures |pending| == |f| + |rest| ==> pending == f + rest && gone' == gone
  {
    var all := f + (rest + gone);
    assert pending == all[..|pending|] && gone' == all[|pending|..];
    assert all[..|f|] == f && all[|f|..] == rest + gone;
    assert all[..|f| + |rest|] == f + rest && all[|f| + |rest|..] == gone;
  }

  // ---------------------------------------------------------------- how long a call takes

  function WriterSteps(run: seq<Action>): nat {
    if run == [] then 0 else (if run[0].WriterStep? then 1 else 0) + WriterSteps(run[1..])
  }

  /** The steps behind delete_objects(). */
  function Closing(op: Op, n: nat): nat { if op == Invalidate then n + 2 else 0 }

  /** An upper bound for the writer's steps until the lock is released, if deletable() is not refused any more. */
  function Todo(s: State): int {
    var n, p := |s.threads|, |s.pending|;
    match s.writer
    case Idle => 0
    case Check(op) => 1 + (n + 1) + (n + 1) + (p + 1) + Closing(op, n)
    case Snap(op, i) => (n - i + 1) + (n + 1) + (p + 1) + Closing(op, n)
    case Scan(op, i) => (n - i + 1) + (p + 1) + Closing(op, n)
    case Sweep(op, i, _) => (p - i + 1) + Closing(op, n)
    case Realloc => n + 2
    case Store(i) => n - i + 1
  }

  /** A collection that keeps trying. */
  predicate Forced(w: Writer) { Deciding(w) && w.op == ForcedGc }

  lemma {:induction false} TodoShrinks(s: State, junk: nat)
    requires Inv(s) && Numbered(s) && s.writer != Idle && Enabled(s, WriterStep(junk))
    requires Forced(s.writer) ==> !Refused(s)
    ensures Todo(Continue(s, junk)) < Todo(s)
  {
    if s.writer.Scan? && s.writer.i < |s.threads| { RefusedExactly(s, s.writer.i); }
    hide Inv, Numbered, Inside, Passed;
  }

  lemma {:induction false} TodoPositive(s: State)
    requires Inv(s)
    ensures Todo(s) >= 0 && (Todo(s) == 0 <==> s.writer == Idle)
  {
    hide Ledger, CountersOk, Safe, Covered, Unheld, NoMark;
  }

  lemma {:induction false} ForcedStays(s: State, a: Action)
    requires s.writer != Idle && Enabled(s, a) && Forced(Step(s, a).writer)
    ensures Forced(s.writer)
  {}

  /** Each writer step counts, whatever the others do in between; a forced collection must not be refused. */
  lemma {:induction false} BusyShrinks(s: State, run: seq<Action>, s': State)
    requires Inv(s) && Numbered(s) && Busy(s, run, s') && (Forced(s.writer) ==> AllPass(s, run))
    ensures WriterSteps(run) + Todo(s') <= Todo(s) && Inv(s')
    decreases |run|
  {
    if run != [] {
      var a, t := run[0], Step(s, run[0]);
      InvStep(s, a);
      NumberedStep(s, a);
      assert Forced(t.writer) ==> AllPass(t, run[1..]) by { if Forced(t.writer) { ForcedStays(s, a); } }
      assert Todo(t) + WriterSteps([a]) <= Todo(s) by {
        hide Inv, Numbered, Busy;
        if a.WriterStep? { TodoShrinks(s, a.junk); } else { OtherKeeps(s, a); }
      }
      hide Inv, Numbered, Step, Todo, AllPass, Enabled;
      BusyShrinks(t, run[1..], s');
    }
  }

  /** The writer's steps of a call that does not wait, with `n` threads and `p` objects pending before it. */
  function StepBound(a: Action, n: nat, p: nat): nat {
    if a.StartInvalidate? then 3 * n + p + 7 else 2 * n + p + 4
  }

  /**
   gc(false) and invalidate() are wait-free: whatever the readers do, the lock is released after
   a bounded number of the writer's steps, and until then the writer can always take one.
   */
  lemma {:induction false} CallIsWaitFree(s0: State, run0: seq<Action>, s: State, a: Action, run: seq<Action>, s': State)
    requires Init(s0) && Run(s0, run0, s) && IsCall(a) && a != StartGc(true) && Enabled(s, a)
    requires Busy(Step(s, a), run, s')
    ensures var bound := StepBound(a, |s.threads|, |s.pending|);
            && WriterSteps(run) <= bound
            && (WriterSteps(run) == bound ==> s'.writer == Idle)
    ensures s'.writer != Idle ==> forall junk :: Enabled(s', WriterStep(junk))
  {
    var t := Step(s, a);
    Reached(s0, run0, s);
    InvStep(s, a);
    NumberedStep(s, a);
    assert !Forced(t.writer) && Todo(t) <= StepBound(a, |s.threads|, |s.pending|) by { hide Inv, Numbered; }
    hide Inv, Numbered, Todo, StepBound, AllPass, Run, Init, Enabled, Step, Busy;
    BusyShrinks(t, run, s');
    TodoPositive(s');
    if s'.writer != Idle { forall junk ensures Enabled(s', WriterStep(junk)) { WriterNeverStuck(s', junk); } }
  }

  lemma {:induction false} ForcedBound(s: State, run: seq<Action>, s': State)
    requires Inv(s) && Numbered(s) && Forced(s.writer) && Busy(s, run, s') && AllPass(s, run)
    ensures var bound := StepBound(StartGc(true), |s.threads|, |s.pending|);
            && WriterSteps(run) <= bound
            && (WriterSteps(run) == bound ==> s'.writer == Idle)
  {
    assert Todo(s) <= StepBound(StartGc(true), |s.threads|, |s.pending|);
    hide Inv, Numbered, Todo, StepBound, AllPass, Busy;
    BusyShrinks(s, run, s');
    TodoPositive(s');
  }

  /** gc(true) returns within the same number of steps once deletable() is not refused any more. */
  lemma {:induction false} ForcedGcEnds(s0: State, run0: seq<Action>, s: State, run: seq<Action>, s': State)
    requires Init(s0) && Run(s0, run0, s) && Forced(s.writer)
    requires Busy(s, run, s') && AllPass(s, run)
    ensures var bound := StepBound(StartGc(true), |s.threads|, |s.pending|);
            && WriterSteps(run) <= bound
            && (WriterSteps(run) == bound ==> s'.writer == Idle)
  {
    hide Inv, Numbered, StepBound, AllPass, Run, Init, Busy, WriterSteps;
    Reached(s0, run0, s);
    ForcedBound(s, run, s');
  }

  // ---------------------------------------------------------------- when objects are deleted

  /** Thread `t` has left the section it was in when its snapshot was taken. */
  predicate Left(s: State, t: nat) {
    && t < |s.threads| && t < |s.versions|
    && (Nesting(s.threads[t].counter) == 0 || s.threads[t].section > s.versions[t].section)
  }

  ghost predicate AllLeft(s: State) {
    |s.versions| == |s.threads| && forall t :: 0 <= t < |s.threads| ==> Left(s, t)
  }

  /** No thread has entered 2^16 sections since its snapshot. */
  ghost predicate NoWrap(s: State, s': State) {
    |s'.threads| <= |s.versions| &&
    forall t :: 0 <= t < |s'.threads| ==> s'.threads[t].section < s.versions[t].section + NEST
  }

  ghost predicate AllOutside(s: State) {
    forall t :: 0 <= t < |s.threads| ==> Nesting(s.threads[t].counter) == 0
  }

  predicate NoEnter(run: seq<Action>) {
    forall k :: 0 <= k < |run| ==> !run[k].Enter?
  }

  lemma {:induction false} SectionsGrow(s: State, run: seq<Action>, s': State)
    requires Busy(s, run, s')
    ensures |s'.threads| == |s.threads|
    ensures forall t :: 0 <= t < |s.threads| ==> s.threads[t].section <= s'.threads[t].section
    decreases |run|
  {
    if run != [] { SectionsGrow(Step(s, run[0]), run[1..], s'); }
  }

  lemma {:induction false} LeftStays(s: State, a: Action)
    requires CountersOk(s) && Numbered(s) && AllLeft(s) && Enabled(s, a) && s.writer != Idle && Deciding(s.writer) && !s.writer.Snap?
    ensures Step(s, a).versions == s.versions && (Deciding(Step(s, a).writer) ==> !Step(s, a).writer.Snap? && AllLeft(Step(s, a)))
  {
    if a.Enter? { DownFacts(s.threads[a.t].counter); }
    if a.Leave? { UpFacts(s.threads[a.t].counter); }
    hide Down;
    forall u: nat | u < |s.threads| ensures Left(Step(s, a), u) || Step(s, a).versions != s.versions { assert Left(s, u); }
  }

  lemma {:induction false} LeftPasses(s: State, run: seq<Action>, s': State)
    requires Inv(s) && Numbered(s) && Busy(s, run, s') && AllLeft(s) && NoWrap(s, s') && !s.writer.Snap?
    ensures AllPass(s, run)
    decreases |run|
  {
    if run != [] && Deciding(s.writer) {
      SectionsGrow(s, run, s');
      NotRefused(s, s');
      LeftStays(s, run[0]);
      InvStep(s, run[0]);
      NumberedStep(s, run[0]);
      hide Inv, Numbered, Step, Left, Enabled, Refused;
      if Deciding(Step(s, run[0]).writer) { LeftPasses(Step(s, run[0]), run[1..], s'); }
    }
  }

  lemma {:induction false} NotRefused(s: State, s': State)
    requires Numbered(s) && AllLeft(s) && NoWrap(s, s') && |s'.threads| == |s.threads|
    requires forall t :: 0 <= t < |s.threads| ==> s.threads[t].section <= s'.threads[t].section
    ensures !Refused(s)
  {
    if s.writer.Scan? && s.writer.i < |s.threads| {
      var t := s.writer.i;
      assert Left(s, t) && s.threads[t].section < s.versions[t].section + NEST;
    }
  }

  lemma {:induction false} QuietPasses(s: State, run: seq<Action>, s': State)
    requires Busy(s, run, s') && AllOutside(s) && NoEnter(run)
    ensures AllPass(s, run)
    decreases |run|
  {
    if run != [] {
      assert !run[0].Enter?;
      assert !Refused(s) && AllOutside(Step(s, run[0]));
      assert forall k :: 0 <= k < |run| - 1 ==> run[1..][k] == run[k + 1];
      QuietPasses(Step(s, run[0]), run[1..], s');
    }
  }

  /**
   A call deletes everything that was pending before if every thread has left the section of its
   snapshot, or if no thread is in a section for the time of the call.
   */
  lemma {:induction false} CallCollects(s0: State, run0: seq<Action>, s: State, a: Action, run: seq<Action>, s': State)
    requires Init(s0) && Run(s0, run0, s) && IsCall(a) && Enabled(s, a)
    requires Busy(Step(s, a), run, s') && s'.writer == Idle
    requires (AllLeft(s) && NoWrap(s, s')) || (AllOutside(s) && NoEnter(run))
    ensures Objs(s'.pending) == Fresh(a) && s'.gone == Objs(s.pending) + s.gone
  {
    var t := Step(s, a);
    CallExactly(s0, run0, s, a, run, s');
    if AllOutside(s) && NoEnter(run) {
      hide Inv, Run, Init, AllPass, Busy, NoEnter;
      QuietPasses(t, run, s');
    } else {
      Reached(s0, run0, s);
      InvStep(s, a);
      NumberedStep(s, a);
      hide Inv, Numbered, Run, Init, AllPass, Busy, NoWrap;
      forall u: nat | u < |s.threads| ensures Left(t, u) { assert Left(s, u); }
      assert NoWrap(t, s') by { WrapOnlyThreads(s, t, s'); }
      LeftPasses(t, run, s');
    }
  }

  lemma {:induction false} WrapOnlyThreads(s: State, t: State, s': State)
    requires t.versions == s.versions
    ensures NoWrap(s, s') ==> NoWrap(t, s')
  {}

  /** A forced collection with a snapshot of every thread. */
  predicate Collecting(s: State) {
    (s.writer.Check? || s.writer.Scan?) && s.writer.op == ForcedGc && |s.versions| == |s.threads|
  }

  lemma {:induction false} CollectingStep(s: State, a: Action)
    requires Collecting(s) && Enabled(s, a)
    ensures Step(s, a).versions == s.versions && (Forced(Step(s, a).writer) ==> Collecting(Step(s, a)))
  {}

  /** gc(true) does not renew its snapshots while it waits. */
  lemma {:induction false} SnapshotsStay(s: State, run: seq<Action>, s': State)
    requires Collecting(s) && Busy(s, run, s') && Forced(s'.writer)
    ensures s'.versions == s.versions && Collecting(s')
    decreases |run|
  {
    if run != [] {
      var t := Step(s, run[0]);
      CollectingStep(s, run[0]);
      ForcedBefore(t, run[1..], s');
      hide Step, Enabled;
      SnapshotsStay(t, run[1..], s');
    }
  }

  lemma {:induction false} ForcedBefore(s: State, run: seq<Action>, s': State)
    requires Busy(s, run, s') && Forced(s'.writer)
    ensures Forced(s.writer)
    decreases |run|
  {
    if run != [] {
      ForcedBefore(Step(s, run[0]), run[1..], s');
      ForcedStays(s, run[0]);
    }
  }

  /** Thread `t` has in `s'` left the section that its snapshot in `s` was taken in. */
  predicate LeftSince(s: State, s': State, t: nat) {
    && t < |s.versions| && t < |s'.threads|
    && (Nesting(s'.threads[t].counter) == 0 || s'.threads[t].section > s.versions[t].section)
  }

  lemma {:induction false} LeftBy(s: State, s': State)
    requires s'.versions == s.versions && |s'.versions| == |s'.threads|
    requires forall t :: 0 <= t < |s'.threads| ==> LeftSince(s, s', t)
    ensures AllLeft(s')
  {
    forall t: nat | t < |s'.threads| ensures Left(s', t) { assert LeftSince(s, s', t); }
  }

  /**
   gc(true) waits for nothing but the sections of its snapshots: once every thread has left the
   one it was in, it returns within the bound, whatever sections the threads enter meanwhile.
   */
  lemma {:induction false} ForcedGcReturns(s0: State, run0: seq<Action>, s: State, run: seq<Action>, s': State,
                                           run': seq<Action>, s'': State)
    requires Init(s0) && Run(s0, run0, s) && Collecting(s)
    requires Busy(s, run, s') && Forced(s'.writer) && forall t :: 0 <= t < |s'.threads| ==> LeftSince(s, s', t)
    requires Busy(s', run', s'') && NoWrap(s, s'')
    ensures var bound := StepBound(StartGc(true), |s'.threads|, |s'.pending|);
            && WriterSteps(run') <= bound
            && (WriterSteps(run') == bound ==> s''.writer == Idle)
  {
    hide Inv, Numbered, Todo, StepBound, AllPass, Run, Init, Busy, NoWrap, LeftSince, AllLeft, WriterSteps;
    Reached(s0, run0, s);
    SnapshotsStay(s, run, s');
    BusyIsRun(s, run, s');
    NumberedRun(s, run, s');
    LeftBy(s, s');
    WrapOnlyThreads(s, s', s'');
    LeftPasses(s', run', s'');
    ForcedBound(s', run', s'');
  }

  lemma {:induction false} BusyIsRun(s: State, run: seq<Action>, s': State)
    requires Busy(s, run, s')
    ensures Run(s, run, s')
    decreases |run|
  {
    if run != [] { BusyIsRun(Step(s, run[0]), run[1..], s'); }
  }

  // ---------------------------------------------------------------- every call can return

  ghost predicate CanReturn(s: State) {
    exists run, s' :: Run(s, run, s') && s'.writer == Idle
  }

  lemma {:induction false} ReturnsAfter(s: State, a: Action)
    requires Enabled(s, a) && CanReturn(Step(s, a))
    ensures CanReturn(s)
  {
    var run, s' :| Run(Step(s, a), run, s') && s'.writer == Idle;
    assert ([a] + run)[1..] == run;
    assert Run(s, [a] + run, s');
  }

  lemma {:induction false} QuietReturns(s: State)
    requires Inv(s) && Numbered(s) && AllOutside(s)
    ensures CanReturn(s)
    decreases Todo(s)
  {
    TodoPositive(s);
    if s.writer == Idle {
      assert Run(s, [], s);
    } else {
      var a := WriterStep(0);
      WriterNeverStuck(s, 0);
      NumberedStep(s, a);
      assert !Refused(s) && Step(s, a).threads == s.threads;
      hide Inv, Numbered, Refused, CanReturn, AllOutside;
      TodoShrinks(s, 0);
      TodoPositive(Step(s, a));
      assert AllOutside(Step(s, a)) by { OutsideBy(s, Step(s, a)); }
      QuietReturns(Step(s, a));
      ReturnsAfter(s, a);
    }
  }

  lemma {:induction false} OutsideBy(s: State, s': State)
    requires s'.threads == s.threads
    ensures AllOutside(s) ==> AllOutside(s')
  {}

  function Depths(ts: seq<Thread>): nat {
    if ts == [] then 0 else Nesting(ts[0].counter) + Depths(ts[1..])
  }

  lemma {:induction false} DepthsUpdate(ts: seq<Thread>, t: nat, th: Thread)
    requires t < |ts|
    ensures Depths(ts[t := th]) == Depths(ts) - Nesting(ts[t].counter) + Nesting(th.counter)
  {
    if t == 0 {
      assert ts[t := th][1..] == ts[1..];
    } else {
      assert ts[t := th][1..] == ts[1..][t - 1 := th];
      DepthsUpdate(ts[1..], t - 1, th);
    }
  }

  lemma {:induction false} LeaveShrinks(s: State, t: nat)
    requires CountersOk(s) && Enabled(s, Leave(t))
    ensures Depths(Step(s, Leave(t)).threads) < Depths(s.threads)
  {
    UpFacts(s.threads[t].counter);
    DepthsUpdate(s.threads, t, Step(s, Leave(t)).threads[t]);
  }

  lemma {:induction false} ReturnsFrom(s: State)
    requires Inv(s) && Numbered(s)
    ensures CanReturn(s)
    decreases Depths(s.threads)
  {
    if AllOutside(s) {
      QuietReturns(s);
    } else {
      var t :| 0 <= t < |s.threads| && Nesting(s.threads[t].counter) > 0;
      LeaveShrinks(s, t);
      InvStep(s, Leave(t));
      NumberedStep(s, Leave(t));
      hide Inv, Numbered, CanReturn, AllOutside, Depths;
      ReturnsFrom(Step(s, Leave(t)));
      ReturnsAfter(s, Leave(t));
    }
  }

  /** No call is stuck for good: from every reachable state the lock can still be released. */
  lemma {:induction false} CallsCanReturn(s: State, run: seq<Action>, s': State)
    requires Init(s) && Run(s, run, s')
    ensures CanReturn(s')
  {
    hide Inv, Numbered, CanReturn, Run, Init;
    Reached(s, run, s');
    ReturnsFrom(s');
  }
}
