/**
 RCU reclamation (nre/include/RCU.h) as a transition system.

 Readers enter and leave (nested) read sections by updating their own packed counter and fetch
 published objects in between. Writers hold the lock `_sm`, so at most one of them is active;
 every access of a writer to a reader's counter is a step of its own and interleaves with the
 readers in any order. Memory is sequentially consistent.
 */
module Rcu {
  import opened Bits

  type Obj = nat

  const NEST: nat := 0x1_0000             // the lower half of the counter: nesting depth

  function Nesting(c: nat): nat { c % NEST }

  function Version(c: nat): nat { c / NEST }

  /** RCULock::down: a new version for an outermost section, one level deeper in any case. */
  function Down(c: nat): nat {
    ((if c % NEST == 0 then (c + NEST) % WORD else c) + 1) % WORD
  }

  /** RCULock::up */
  function Up(c: nat): nat
    requires c > 0
  {
    c - 1
  }

  /** The test of deletable() on one thread. */
  predicate Passed(counter: nat, snapshot: nat) {
    Version(counter) != Version(snapshot) || Nesting(counter) == 0
  }

  /**
   `held`: what the thread has fetched since it entered its outermost read section; `section`:
   how many of them it has entered.
   */
  datatype Thread = Thread(counter: nat, held: set<Obj>, section: nat)

  /** An element of _versions: the counter of a thread, with the section it was read in or after. */
  datatype Snapshot = Snapshot(counter: nat, section: nat)

  /** A list node: an invalidated object and whether its state is DELETABLE. */
  datatype Node = Node(obj: Obj, deletable: bool)

  datatype Op = Invalidate | Gc | ForcedGc

  datatype Writer =
    | Idle
    | Check(op: Op)                             // deletable(): compare the list lengths
    | Snap(op: Op, i: nat)                      // store_versions() called by deletable()
    | Scan(op: Op, i: nat)                      // the loop of deletable()
    | Sweep(op: Op, i: nat, found: bool)        // delete_objects()
    | Realloc                                   // store_versions() at the end of invalidate()
    | Store(i: nat)

  /**
   `pending` is the list _objs, newest first. Ghost history: `invalidated` lists every object
   ever passed to invalidate(), newest first; `round` what the running sweep has deleted so far
   and `gone` what earlier sweeps have deleted.
   */
  datatype State = State(
    threads: seq<Thread>, versions: seq<Snapshot>, pending: seq<Node>, published: set<Obj>,
    writer: Writer, invalidated: seq<Obj>, round: seq<Obj>, gone: seq<Obj>)

  datatype Action =
    | Enter(t: nat) | Leave(t: nat) | Fetch(t: nat, o: Obj)
    | AddThread | Publish(o: Obj) | Unpublish(o: Obj)
    | StartInvalidate(o: Obj) | StartGc(force: bool)
    | WriterStep(junk: nat)                     // junk: content of freshly allocated words

  predicate Enabled(s: State, a: Action) {
    match a
    case Enter(t) => t < |s.threads| && Nesting(s.threads[t].counter) < NEST - 1
    case Leave(t) => t < |s.threads| && Nesting(s.threads[t].counter) > 0
    case Fetch(t, o) => t < |s.threads| && Nesting(s.threads[t].counter) > 0 && o in s.published
    case AddThread => s.writer == Idle
    case Publish(o) => o !in s.invalidated
    case Unpublish(o) => true
    case StartInvalidate(o) => s.writer == Idle && o !in s.published && o !in s.invalidated
    case StartGc(force) => s.writer == Idle
    case WriterStep(junk) =>
      && s.writer != Idle
      && (s.writer.Snap? || s.writer.Scan? || s.writer.Store? ==> s.writer.i <= |s.threads| == |s.versions|)
      && (s.writer.Scan? ==> |s.pending| > (if s.writer.op == Invalidate then 1 else 0))
      && (s.writer.Sweep? ==> s.writer.i <= |s.pending|)
  }

  function Step(s: State, a: Action): State
    requires Enabled(s, a)
  {
    match a
    case Enter(t) =>
      var th := s.threads[t];
      var section := if Nesting(th.counter) == 0 then th.section + 1 else th.section;
      s.(threads := s.threads[t := Thread(Down(th.counter), th.held, section)])
    case Leave(t) =>
      var th, c := s.threads[t], Up(s.threads[t].counter);
      s.(threads := s.threads[t := Thread(c, if Nesting(c) == 0 then {} else th.held, th.section)])
    case Fetch(t, o) =>
      s.(threads := s.threads[t := s.threads[t].(held := s.threads[t].held + {o})])
    case AddThread => s.(threads := s.threads + [Thread(0, {}, 0)])
    case Publish(o) => s.(published := s.published + {o})
    case Unpublish(o) => s.(published := s.published - {o})
    case StartInvalidate(o) =>
      var pending := [Node(o, false)] + s.pending;
      s.(pending := pending, invalidated := [o] + s.invalidated,
         writer := if |pending| > 1 then Check(Invalidate) else Realloc)
    case StartGc(force) =>
      if s.pending == [] then s else s.(writer := Check(if force then ForcedGc else Gc))
    case WriterStep(junk) => Continue(s, junk)
  }

  /** The node the operation is going to mark: the list head, or the one behind a new head. */
  function Mark(op: Op): nat {
    if op == Invalidate then 1 else 0
  }

  /** Freshly allocated snapshots. */
  function Garbage(n: nat, junk: nat): seq<Snapshot> {
    seq(n, _ => Snapshot(junk, 0))
  }

  function Taken(th: Thread): Snapshot { Snapshot(th.counter, th.section) }

  function Continue(s: State, junk: nat): State
    requires Enabled(s, WriterStep(junk))
  {
    match s.writer
    case Check(op) =>
      if |s.versions| != |s.threads|
      then s.(versions := Garbage(|s.threads|, junk), writer := Snap(op, 0))
      else s.(writer := Scan(op, 0))
    case Snap(op, i) =>
      if i < |s.threads|
      then s.(versions := s.versions[i := Taken(s.threads[i])], writer := Snap(op, i + 1))
      else s.(writer := Scan(op, 0))
    case Scan(op, i) =>
      if i == |s.threads| then
        s.(pending := s.pending[Mark(op) := s.pending[Mark(op)].(deletable := true)], writer := Sweep(op, 0, false))
      else if Passed(s.threads[i].counter, s.versions[i].counter) then
        s.(writer := Scan(op, i + 1))
      else
        s.(writer := match op
                     case Invalidate => Realloc
                     case Gc => Sweep(op, 0, false)
                     case ForcedGc => Check(op))
    case Sweep(op, i, found) =>
      if i == |s.pending| then
        s.(round := [], gone := s.round + s.gone, writer := if op == Invalidate then Realloc else Idle)
      else if !found && !s.pending[i].deletable then
        s.(writer := Sweep(op, i + 1, false))
      else
        s.(pending := s.pending[..i] + s.pending[i + 1..], round := s.round + [s.pending[i].obj],
           writer := Sweep(op, i, true))
    case Realloc =>
      s.(versions := if |s.versions| != |s.threads| then Garbage(|s.threads|, junk) else s.versions,
         writer := Store(0))
    case Store(i) =>
      if i < |s.threads|
      then s.(versions := s.versions[i := Taken(s.threads[i])], writer := Store(i + 1))
      else s.(writer := Idle)
  }

  // ---------------------------------------------------------------- runs

  predicate Init(s: State) {
    && s.threads == [] && s.versions == [] && s.pending == [] && s.writer == Idle
    && s.invalidated == [] && s.round == [] && s.gone == []
  }

  /** `s'` is reached from `s` by the actions `run`. */
  predicate Run(s: State, run: seq<Action>, s': State)
    decreases |run|
  {
    if run == [] then s == s'
    else Enabled(s, run[0]) && Run(Step(s, run[0]), run[1..], s')
  }

  // ---------------------------------------------------------------- the invariant

  function Objs(p: seq<Node>): seq<Obj> {
    seq(|p|, i requires 0 <= i < |p| => p[i].obj)
  }

  ghost predicate Distinct(q: seq<Obj>) {
    forall i, j :: 0 <= i < j < |q| ==> q[i] != q[j]
  }

  ghost predicate Deleted(s: State, o: Obj) {
    o in s.round || o in s.gone
  }

  ghost predicate HeldBy(s: State, t: int, o: Obj) {
    0 <= t < |s.threads| && o in s.threads[t].held
  }

  /** The running sweep is somewhere inside the list; otherwise the deleted part is the tail. */
  ghost predicate Ledger(s: State) {
    var objs := Objs(s.pending);
    && Distinct(s.invalidated)
    && (forall o :: o in s.invalidated ==> o !in s.published)
    && (if s.writer.Sweep?
        then s.writer.i <= |objs| && s.invalidated == objs[..s.writer.i] + s.round + objs[s.writer.i..] + s.gone
        else s.round == [] && s.invalidated == objs + s.gone)
  }

  /** The promise of the library: nothing a reader still holds has been deleted. */
  ghost predicate Safe(s: State) {
    forall t, o :: HeldBy(s, t, o) ==> !Deleted(s, o)
  }

  ghost predicate CountersOk(s: State) {
    forall t :: 0 <= t < |s.threads| ==>
      s.threads[t].counter < WORD && (Nesting(s.threads[t].counter) == 0 ==> s.threads[t].held == {})
  }

  /** If a thread below `n` holds `objs[k]`, k >= m, it is in the section the snapshot saw. */
  ghost predicate Covered(s: State, n: nat, m: nat) {
    forall t, k :: 0 <= t < n && m <= k < |s.pending| && HeldBy(s, t, s.pending[k].obj) ==>
      t < |s.versions| && Version(s.threads[t].counter) == Version(s.versions[t].counter)
  }

  /** No thread below `n` holds any object from position `m` of the list on. */
  ghost predicate Unheld(s: State, n: nat, m: nat) {
    forall t, k :: 0 <= t < n && m <= k < |s.pending| ==> !HeldBy(s, t, s.pending[k].obj)
  }

  ghost predicate NoMark(s: State) {
    forall k :: 0 <= k < |s.pending| ==> !s.pending[k].deletable
  }

  /** What holds at each point of the writer's program. */
  ghost predicate AtWriter(s: State) {
    match s.writer
    case Idle => NoMark(s) && |s.versions| <= |s.threads| && Covered(s, |s.versions|, 0)
    case Check(op) =>
      NoMark(s) && |s.pending| > Mark(op) && |s.versions| <= |s.threads| && Covered(s, |s.versions|, Mark(op))
    case Snap(op, i) =>
      NoMark(s) && |s.pending| > Mark(op) && i <= |s.threads| == |s.versions| && Covered(s, i, 0)
    case Scan(op, i) =>
      && NoMark(s) && |s.pending| > Mark(op) && i <= |s.threads| == |s.versions|
      && Covered(s, |s.threads|, Mark(op)) && Unheld(s, i, Mark(op))
    case Sweep(op, i, found) =>
      && |s.threads| == |s.versions| && i <= |s.pending|
      && (op != Invalidate ==> Covered(s, |s.threads|, 0))
      && (!found ==> s.round == [])
      && (found ==> i == Mark(op) && Unheld(s, |s.threads|, i))
      && (forall k :: 0 <= k < |s.pending| && s.pending[k].deletable ==>
            !found && k == Mark(op) && i <= k && Unheld(s, |s.threads|, k))
      && (op != Gc ==> found || exists k :: 0 <= k < |s.pending| && s.pending[k].deletable)
    case Realloc => NoMark(s)
    case Store(i) => NoMark(s) && i <= |s.threads| == |s.versions| && Covered(s, i, 0)
  }

  ghost predicate Inv(s: State) {
    Ledger(s) && CountersOk(s) && Safe(s) && AtWriter(s)
  }

  // ---------------------------------------------------------------- readers

  lemma {:induction false} DownFacts(c: nat)
    requires c < WORD && Nesting(c) < NEST - 1
    ensures Down(c) < WORD && Nesting(Down(c)) == Nesting(c) + 1
    ensures Nesting(c) > 0 ==> Version(Down(c)) == Version(c)
    ensures Nesting(c) == 0 ==> Version(Down(c)) == (Version(c) + 1) % NEST != Version(c)
  {}

  lemma {:induction false} UpFacts(c: nat)
    requires 0 < c < WORD && Nesting(c) > 0
    ensures Nesting(Up(c)) == Nesting(c) - 1 && Version(Up(c)) == Version(c)
  {}

  /** A reader step: one thread changes, and gains no invalidated object. */
  ghost predicate ReaderMoved(s: State, s': State) {
    && s' == s.(threads := s'.threads) && |s'.threads| == |s.threads|
    && (forall t, o :: HeldBy(s', t, o) && o in s.invalidated ==>
          HeldBy(s, t, o) && Version(s'.threads[t].counter) == Version(s.threads[t].counter))
  }

  lemma {:induction false} ReaderKeeps(s: State, s': State)
    requires Ledger(s) && Safe(s) && AtWriter(s) && ReaderMoved(s, s')
    ensures Ledger(s') && Safe(s') && AtWriter(s')
  {
    PendingInvalidated(s);
    assert forall o :: Deleted(s, o) ==> o in s.invalidated;
    assert Safe(s') by {
      forall t, o | HeldBy(s', t, o) ensures !Deleted(s', o) {
        assert Deleted(s', o) ==> o in s.invalidated;
      }
    }
    forall n: nat, m: nat | Covered(s, n, m) ensures Covered(s', n, m) {}
    forall n: nat, m: nat | Unheld(s, n, m) ensures Unheld(s', n, m) {}
  }

  lemma {:induction false} PendingInvalidated(s: State)
    requires Ledger(s)
    ensures forall k :: 0 <= k < |s.pending| ==> s.pending[k].obj in s.invalidated
    ensures forall o :: Deleted(s, o) ==> o in s.invalidated
  {
    var objs := Objs(s.pending);
    forall k | 0 <= k < |s.pending| ensures s.pending[k].obj in s.invalidated {
      assert objs[k] == s.pending[k].obj;
      if s.writer.Sweep? {
        assert objs[k] in objs[..s.writer.i] || objs[k] in objs[s.writer.i..];
      }
    }
  }

  lemma {:induction false} ReaderStep(s: State, a: Action)
    requires Inv(s) && Enabled(s, a) && (a.Enter? || a.Leave? || a.Fetch?)
    ensures Inv(Step(s, a))
  {
    var s' := Step(s, a);
    var c := s.threads[a.t].counter;
    if a.Enter? { DownFacts(c); }
    if a.Leave? { UpFacts(c); }
    assert ReaderMoved(s, s');
    ReaderKeeps(s, s');
  }

  // ---------------------------------------------------------------- writers

  lemma {:induction false} PublishStep(s: State, a: Action)
    requires Inv(s) && Enabled(s, a) && (a.Publish? || a.Unpublish?)
    ensures Inv(Step(s, a))
  {
    hide AtWriter;
    var s' := Step(s, a);
    assert forall t, o :: HeldBy(s', t, o) <==> HeldBy(s, t, o);
    PublishKeepsWriter(s, s'.published);
  }

  lemma {:induction false} PublishKeepsWriter(s: State, published: set<Obj>)
    requires AtWriter(s)
    ensures AtWriter(s.(published := published))
  {
    var s' := s.(published := published);
    forall n: nat, m: nat | Covered(s, n, m) ensures Covered(s', n, m) {
      assert forall t, o :: HeldBy(s', t, o) <==> HeldBy(s, t, o);
    }
    forall n: nat, m: nat | Unheld(s, n, m) ensures Unheld(s', n, m) {
      assert forall t, o :: HeldBy(s', t, o) <==> HeldBy(s, t, o);
    }
    hide Covered, Unheld;
  }

  lemma {:induction false} StartStep(s: State, a: Action)
    requires Inv(s) && Enabled(s, a) && (a.AddThread? || a.StartGc?)
    ensures Inv(Step(s, a))
  {
    var s' := Step(s, a);
    assert forall t, o :: HeldBy(s', t, o) <==> HeldBy(s, t, o);
  }

  lemma {:induction false} InvalidateStep(s: State, o: Obj)
    requires Inv(s) && Enabled(s, StartInvalidate(o))
    ensures Inv(Step(s, StartInvalidate(o)))
  {
    var s' := Step(s, StartInvalidate(o));
    assert Objs(s'.pending) == [o] + Objs(s.pending);
    assert s'.invalidated == Objs(s'.pending) + s'.gone;
    assert forall t, p :: HeldBy(s', t, p) <==> HeldBy(s, t, p);
    assert Covered(s', |s'.versions|, 1);
  }

  /** A writer step outside of a sweep, and the step into one, leaves the readers and the lists alone. */
  ghost predicate OnlyWriter(s: State, s': State) {
    && !s.writer.Sweep? && (s'.writer.Sweep? ==> s'.writer.i == 0)
    && s'.threads == s.threads && s'.published == s.published && Objs(s'.pending) == Objs(s.pending)
    && s'.invalidated == s.invalidated && s'.round == s.round && s'.gone == s.gone
  }

  lemma {:induction false} WriterKeeps(s: State, s': State)
    requires Ledger(s) && CountersOk(s) && Safe(s) && OnlyWriter(s, s')
    ensures Ledger(s') && CountersOk(s') && Safe(s')
  {
    hide Objs, Distinct;
    assert forall t, o :: HeldBy(s', t, o) <==> HeldBy(s, t, o);
    var objs := Objs(s.pending);
    assert objs[..0] + [] + objs[0..] == objs;
  }

  lemma {:induction false} CheckStep(s: State, junk: nat)
    requires AtWriter(s) && s.writer.Check?
    ensures Enabled(s, WriterStep(junk)) && AtWriter(Continue(s, junk)) && OnlyWriter(s, Continue(s, junk))
  {
    var s' := Continue(s, junk);
    assert forall t, o :: HeldBy(s', t, o) <==> HeldBy(s, t, o);
  }

  lemma {:induction false} SnapStep(s: State, junk: nat)
    requires AtWriter(s) && s.writer.Snap?
    ensures Enabled(s, WriterStep(junk)) && AtWriter(Continue(s, junk)) && OnlyWriter(s, Continue(s, junk))
  {
    var s' := Continue(s, junk);
    assert forall t, o :: HeldBy(s', t, o) <==> HeldBy(s, t, o);
    if s.writer.i == |s.threads| { assert Covered(s', |s'.threads|, Mark(s.writer.op)); }
  }

  lemma {:induction false} LoopStep(s: State, junk: nat)
    requires AtWriter(s) && CountersOk(s) && s.round == [] && s.writer.Scan? && s.writer.i < |s.threads|
    ensures Enabled(s, WriterStep(junk)) && AtWriter(Continue(s, junk)) && OnlyWriter(s, Continue(s, junk))
  {
    var s', i := Continue(s, junk), s.writer.i;
    assert forall t, o :: HeldBy(s', t, o) <==> HeldBy(s, t, o);
    if Passed(s.threads[i].counter, s.versions[i].counter) { assert Unheld(s', i + 1, Mark(s.writer.op)); }
  }

  /** All threads have passed: the node is marked. */
  lemma {:induction false} MarkStep(s: State, junk: nat)
    requires AtWriter(s) && s.round == [] && s.writer.Scan? && s.writer.i == |s.threads|
    ensures Enabled(s, WriterStep(junk)) && AtWriter(Continue(s, junk)) && OnlyWriter(s, Continue(s, junk))
  {
    var s', m := Continue(s, junk), Mark(s.writer.op);
    assert forall t, o :: HeldBy(s', t, o) <==> HeldBy(s, t, o);
    assert forall k :: 0 <= k < |s.pending| ==> s'.pending[k].obj == s.pending[k].obj;
    assert Objs(s'.pending) == Objs(s.pending);
    assert s'.pending[m].deletable && Unheld(s', |s'.threads|, m);
  }

  lemma {:induction false} ScanBound(s: State)
    requires AtWriter(s) && s.writer.Scan?
    ensures s.writer.i <= |s.threads|
  {}

  lemma {:induction false} ScanStep(s: State, junk: nat)
    requires AtWriter(s) && CountersOk(s) && s.round == [] && s.writer.Scan?
    ensures Enabled(s, WriterStep(junk)) && AtWriter(Continue(s, junk)) && OnlyWriter(s, Continue(s, junk))
  {
    hide AtWriter, CountersOk, OnlyWriter, Continue, Enabled;
    if s.writer.i < |s.threads| {
      LoopStep(s, junk);
    } else {
      ScanBound(s);
      MarkStep(s, junk);
    }
  }

  lemma {:induction false} StoreStep(s: State, junk: nat)
    requires Inv(s) && (s.writer.Realloc? || s.writer.Store?)
    ensures Enabled(s, WriterStep(junk)) && Inv(Continue(s, junk))
  {
    var s' := Continue(s, junk);
    assert forall t, o :: HeldBy(s', t, o) <==> HeldBy(s, t, o);
  }

  /** Deleting the node at the sweep's position moves it from the list to the round. */
  lemma {:induction false} SweepLedger(s: State)
    requires Ledger(s) && s.writer.Sweep? && s.writer.i < |s.pending|
    ensures var i := s.writer.i; var objs := Objs(s.pending);
            var rest := s.pending[..i] + s.pending[i + 1..];
            && Objs(rest) == objs[..i] + objs[i + 1..]
            && s.invalidated == objs[..i] + (s.round + [objs[i]]) + objs[i + 1..] + s.gone
            && objs[i] !in s.round && objs[i] !in s.gone
  {
    var i, objs := s.writer.i, Objs(s.pending);
    assert objs[i..] == [objs[i]] + objs[i + 1..];
    var l, r := objs[..i] + s.round, objs[i + 1..] + s.gone;
    assert s.invalidated == l + [objs[i]] + r;
    assert s.invalidated[|l|] == objs[i];
    forall k | 0 <= k < |s.round| ensures s.round[k] != objs[i] {
      assert s.invalidated[i + k] == s.round[k];
    }
    forall k | 0 <= k < |s.gone| ensures s.gone[k] != objs[i] {
      assert s.invalidated[|l| + 1 + |objs| - i - 1 + k] == s.gone[k];
    }
  }

  /** The next step of the sweep deletes a node. */
  ghost predicate AboutToDelete(s: State) {
    && s.writer.Sweep? && s.writer.i < |s.pending|
    && (s.writer.found || s.pending[s.writer.i].deletable)
  }

  lemma {:induction false} DeleteLedger(s: State, junk: nat)
    requires Ledger(s) && AboutToDelete(s)
    ensures Enabled(s, WriterStep(junk)) && Ledger(Continue(s, junk))
  {
    var s', i := Continue(s, junk), s.writer.i;
    SweepLedger(s);
    assert Objs(s'.pending)[..i] == Objs(s.pending)[..i];
    assert Objs(s'.pending)[i..] == Objs(s.pending)[i + 1..];
  }

  lemma {:induction false} DeleteSafe(s: State, junk: nat)
    requires Safe(s) && AboutToDelete(s) && Unheld(s, |s.threads|, s.writer.i)
    ensures Enabled(s, WriterStep(junk)) && Safe(Continue(s, junk))
  {
    var s', i := Continue(s, junk), s.writer.i;
    forall t, o | HeldBy(s', t, o) ensures !Deleted(s', o) {
      assert HeldBy(s, t, o) && !Deleted(s, o) && !HeldBy(s, t, s.pending[i].obj);
    }
  }

  lemma {:induction false} DeleteWriter(s: State, junk: nat)
    requires AtWriter(s) && AboutToDelete(s)
    ensures Unheld(s, |s.threads|, s.writer.i)
    ensures Enabled(s, WriterStep(junk)) && AtWriter(Continue(s, junk))
  {
    var s', i := Continue(s, junk), s.writer.i;
    assert forall k :: 0 <= k < |s'.pending| ==> s'.pending[k] == s.pending[if k < i then k else k + 1];
    assert forall t, o :: HeldBy(s', t, o) <==> HeldBy(s, t, o);
    assert Unheld(s', |s'.threads|, i);
  }

  lemma {:induction false} SweepDeletes(s: State, junk: nat)
    requires Inv(s) && AboutToDelete(s)
    ensures Enabled(s, WriterStep(junk)) && Inv(Continue(s, junk))
  {
    hide Ledger, Safe, AtWriter, Unheld;
    DeleteLedger(s, junk);
    DeleteWriter(s, junk);
    DeleteSafe(s, junk);
  }

  lemma {:induction false} SweepPasses(s: State, junk: nat)
    requires Inv(s) && s.writer.Sweep? && !AboutToDelete(s)
    ensures Enabled(s, WriterStep(junk)) && Inv(Continue(s, junk))
  {
    var s', i, objs := Continue(s, junk), s.writer.i, Objs(s.pending);
    assert forall t, o :: HeldBy(s', t, o) <==> HeldBy(s, t, o);
    if i == |s.pending| {
      assert objs[..i] == objs && objs[i..] == [];
      assert s'.invalidated == objs + (s.round + s.gone);
    } else {
      assert objs[..i] + [] + objs[i..] == objs == objs[..i + 1] + [] + objs[i + 1..];
    }
  }

  lemma {:induction false} InvStep(s: State, a: Action)
    requires Inv(s) && Enabled(s, a)
    ensures Inv(Step(s, a))
  {
    match a {
      case Enter(_) => ReaderStep(s, a);
      case Leave(_) => ReaderStep(s, a);
      case Fetch(_, _) => ReaderStep(s, a);
      case StartInvalidate(o) => InvalidateStep(s, o);
      case WriterStep(junk) => WriterNeverStuck(s, junk);
      case AddThread => StartStep(s, a);
      case StartGc(_) => StartStep(s, a);
      case _ => PublishStep(s, a);
    }
  }

  /** A writer that has started can always take its next step, and keeps the invariant. */
  lemma {:induction false} WriterNeverStuck(s: State, junk: nat)
    requires Inv(s) && s.writer != Idle
    ensures Enabled(s, WriterStep(junk)) && Inv(Continue(s, junk))
  {
    if AboutToDelete(s) {
      SweepDeletes(s, junk);
    } else if s.writer.Sweep? {
      SweepPasses(s, junk);
    } else if s.writer.Realloc? || s.writer.Store? {
      StoreStep(s, junk);
    } else {
      assert s.round == [];
      if s.writer.Check? {
        CheckStep(s, junk);
      } else if s.writer.Snap? {
        SnapStep(s, junk);
      } else {
        ScanStep(s, junk);
      }
      WriterKeeps(s, Continue(s, junk));
    }
  }

  lemma {:induction false} InvRun(s: State, run: seq<Action>, s': State)
    requires Inv(s) && Run(s, run, s')
    ensures Inv(s')
    decreases |run|
  {
    if run != [] {
      InvStep(s, run[0]);
      InvRun(Step(s, run[0]), run[1..], s');
    }
  }

  lemma {:induction false} InitInv(s: State)
    requires Init(s)
    ensures Inv(s)
  {}

  lemma {:induction false} ReachableInv(s: State, run: seq<Action>, s': State)
    requires Init(s) && Run(s, run, s')
    ensures Inv(s')
  {
    hide Init, Run, Inv;
    InitInv(s);
    InvRun(s, run, s');
  }

  // ---------------------------------------------------------------- main results

  /**
   In every state of every interleaving, wrapped version numbers included: an object that some
   thread fetched in the read section it is still inside of has not been deleted.
   */
  lemma {:induction false} ReadersAreSafe(s: State, run: seq<Action>, s': State, t: nat, o: Obj)
    requires Init(s) && Run(s, run, s')
    requires t < |s'.threads| && o in s'.threads[t].held
    ensures !Deleted(s', o)
  {
    hide Init, Run, Ledger, CountersOk, AtWriter;
    ReachableInv(s, run, s');
    assert HeldBy(s', t, o);
  }

  /**
   Nothing is lost and nothing is deleted twice: what was invalidated, in order, is the pending
   list followed by everything deleted, so deletion only ever removes a whole tail.
   */
  lemma {:induction false} DeletionRemovesTail(s: State, run: seq<Action>, s': State)
    requires Init(s) && Run(s, run, s') && !s'.writer.Sweep?
    ensures s'.invalidated == Objs(s'.pending) + s'.gone
    ensures Distinct(s'.invalidated)
  {
    hide Init, Run, CountersOk, AtWriter, Safe, Objs, Distinct;
    ReachableInv(s, run, s');
  }

  lemma {:induction false} NodeIsFree(s: State)
    requires Inv(s) && AboutToDelete(s)
    ensures !Deleted(s, s.pending[s.writer.i].obj)
    ensures forall t :: !HeldBy(s, t, s.pending[s.writer.i].obj)
  {
    hide Ledger, Safe, CountersOk;
    SweepLedger(s);
    DeleteWriter(s, 0);
    assert Objs(s.pending)[s.writer.i] == s.pending[s.writer.i].obj;
  }

  /** The object a sweep is about to delete has not been deleted before and nobody holds it. */
  lemma {:induction false} DeletedAtMostOnce(s: State, run: seq<Action>, s': State)
    requires Init(s) && Run(s, run, s') && AboutToDelete(s')
    ensures !Deleted(s', s'.pending[s'.writer.i].obj)
    ensures forall t :: !HeldBy(s', t, s'.pending[s'.writer.i].obj)
  {
    hide Init, Run, Inv, Deleted;
    ReachableInv(s, run, s');
    NodeIsFree(s');
  }

  lemma {:induction false} SweepEnd(s: State)
    requires Inv(s) && s.writer.Sweep? && s.writer.i == |s.pending| && s.writer.op != Gc
    ensures |s.pending| == Mark(s.writer.op)
  {
    hide Ledger, Safe, CountersOk;
  }

  /** A forced collection ends with an empty list, a successful invalidate with the new object only. */
  lemma {:induction false} SweepResult(s: State, run: seq<Action>, s': State)
    requires Init(s) && Run(s, run, s') && s'.writer.Sweep? && s'.writer.i == |s'.pending|
    ensures s'.writer.op == ForcedGc ==> s'.pending == []
    ensures s'.writer.op == Invalidate ==> |s'.pending| == 1
  {
    hide Init, Run, Inv;
    ReachableInv(s, run, s');
    if s'.writer.op != Gc { SweepEnd(s'); }
  }
}
