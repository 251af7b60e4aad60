/**
 TimeoutList (nre/include/util/TimeoutList.h): timers in an array whose pending entries form a
 circular doubly linked list through entry 0, sorted by timeout; and the drain loop of
 Timeouts::trigger (nre/apps/vancouver/Timeouts.cc).
 */
module TimeoutList {
  import opened Wrappers

  const NO_TIMEOUT: nat := 0xFFFF_FFFF_FFFF_FFFF

  // ---------------------------------------------------------------- the ring

  /** `ring` lists the linked entries in order, entry 0 first. */
  predicate Listed(ring: seq<nat>, n: nat) {
    && |ring| > 0 && ring[0] == 0
    && (forall k :: 0 <= k < |ring| ==> ring[k] < n)
    && (forall j, k :: 0 <= j < k < |ring| ==> ring[j] != ring[k])
  }

  function After(ring: seq<nat>, k: nat): nat
    requires k < |ring|
  {
    if k + 1 < |ring| then ring[k + 1] else ring[0]
  }

  function Before(ring: seq<nat>, k: nat): nat
    requires k < |ring|
  {
    if k > 0 then ring[k - 1] else ring[|ring| - 1]
  }

  predicate EntryOk(next: seq<nat>, prev: seq<nat>, ring: seq<nat>, k: int) {
    && 0 <= k < |ring| && ring[k] < |next| && ring[k] < |prev|
    && next[ring[k]] == After(ring, k) && prev[ring[k]] == Before(ring, k)
  }

  /** The links follow the ring; entries outside of it are linked to themselves. */
  ghost predicate Linked(next: seq<nat>, prev: seq<nat>, ring: seq<nat>) {
    && |prev| == |next| && Listed(ring, |next|)
    && (forall k :: 0 <= k < |ring| ==> EntryOk(next, prev, ring, k))
    && (forall i :: 0 <= i < |next| && i !in ring ==> next[i] == i && prev[i] == i)
  }

  function Removed(ring: seq<nat>, k: nat): seq<nat>
    requires k < |ring|
  {
    ring[..k] + ring[k + 1..]
  }

  function Inserted(ring: seq<nat>, k: nat, x: nat): seq<nat>
    requires k <= |ring|
  {
    ring[..k] + [x] + ring[k..]
  }

  lemma {:induction false} InRing(next: seq<nat>, prev: seq<nat>, ring: seq<nat>, k: nat)
    requires Linked(next, prev, ring) && k < |ring|
    ensures ring[k] < |next| && After(ring, k) < |next| && Before(ring, k) < |next|
    ensures next[ring[k]] == After(ring, k) && prev[ring[k]] == Before(ring, k)
  {
    assert EntryOk(next, prev, ring, k);
  }

  lemma {:induction false} UnlinkAt(next: seq<nat>, prev: seq<nat>, ring: seq<nat>, k: nat, j: nat)
    requires Linked(next, prev, ring) && 0 < k < |ring| && j < |ring| - 1
    ensures var x, a, b, ring' := ring[k], Before(ring, k), After(ring, k), Removed(ring, k);
            && x < |next| && a < |next| && b < |next|
            && EntryOk(next[a := b][x := x], prev[b := a][x := x], ring', j)
  {
    var x, a, b, ring' := ring[k], Before(ring, k), After(ring, k), Removed(ring, k);
    var i := if j < k then j else j + 1;
    InRing(next, prev, ring, k);
    InRing(next, prev, ring, i);
    assert ring'[j] == ring[i];
    assert ring[i] == a <==> i == k - 1;
    assert ring[i] == b <==> i == (if k + 1 < |ring| then k + 1 else 0);
  }

  lemma {:induction false} RemovedMembers(ring: seq<nat>, k: nat, n: nat)
    requires Listed(ring, n) && 0 < k < |ring|
    ensures Listed(Removed(ring, k), n)
    ensures forall i :: i in Removed(ring, k) <==> i in ring && i != ring[k]
  {
    var ring' := Removed(ring, k);
    forall i | i in ring && i != ring[k] ensures i in ring' {
      var j :| 0 <= j < |ring| && ring[j] == i;
      assert ring'[if j < k then j else j - 1] == i;
    }
  }

  lemma {:induction false} InsertedMembers(ring: seq<nat>, k: nat, x: nat, n: nat)
    requires Listed(ring, n) && 0 < k <= |ring| && x < n && x !in ring
    ensures Listed(Inserted(ring, k, x), n)
    ensures forall i :: i in Inserted(ring, k, x) <==> i in ring || i == x
  {
    var ring' := Inserted(ring, k, x);
    assert ring'[k] == x;
    forall i | i in ring ensures i in ring' {
      var j :| 0 <= j < |ring| && ring[j] == i;
      assert ring'[if j < k then j else j + 1] == i;
    }
  }

  /** The assignments of cancel(), on entry ring[k]. */
  lemma {:induction false} Unlink(next: seq<nat>, prev: seq<nat>, ring: seq<nat>, k: nat)
    requires Linked(next, prev, ring) && 0 < k < |ring|
    ensures var x, a, b := ring[k], Before(ring, k), After(ring, k);
            && x < |next| && a < |next| && b < |next| && a != x && b != x
            && Linked(next[a := b][x := x], prev[b := a][x := x], Removed(ring, k))
  {
    var x, a, b, ring' := ring[k], Before(ring, k), After(ring, k), Removed(ring, k);
    InRing(next, prev, ring, k);
    var next', prev' := next[a := b][x := x], prev[b := a][x := x];
    RemovedMembers(ring, k, |next|);
    forall j | 0 <= j < |ring'| ensures EntryOk(next', prev', ring', j) {
      UnlinkAt(next, prev, ring, k, j);
    }
    hide Removed, EntryOk;
    assert forall i :: 0 <= i < |next| && i !in ring' ==> next'[i] == i && prev'[i] == i;
  }

  lemma {:induction false} LinkAt(next: seq<nat>, prev: seq<nat>, ring: seq<nat>, k: nat, x: nat, j: nat)
    requires Linked(next, prev, ring) && 0 < k <= |ring| && x < |next| && x !in ring && j <= |ring|
    ensures var a, t, ring' := ring[k - 1], After(ring, k - 1), Inserted(ring, k, x);
            && a < |next| && t < |next|
            && EntryOk(next[x := t][a := x], prev[x := a][t := x], ring', j)
  {
    var a, t, ring' := ring[k - 1], After(ring, k - 1), Inserted(ring, k, x);
    InRing(next, prev, ring, k - 1);
    if j != k {
      var i := if j < k then j else j - 1;
      InRing(next, prev, ring, i);
      assert ring'[j] == ring[i] && ring[i] != x;
      assert ring[i] == a <==> i == k - 1;
      assert ring[i] == t <==> i == (if k < |ring| then k else 0);
    }
  }

  /** The assignments of request(), inserting `x` at position `k` of the ring. */
  lemma {:induction false} Link(next: seq<nat>, prev: seq<nat>, ring: seq<nat>, k: nat, x: nat)
    requires Linked(next, prev, ring) && 0 < k <= |ring| && x < |next| && x !in ring
    ensures var a, t := ring[k - 1], After(ring, k - 1);
            && a < |next| && t < |next| && prev[t] == a
            && Linked(next[x := t][a := x], prev[x := a][t := x], Inserted(ring, k, x))
  {
    var a, t, ring' := ring[k - 1], After(ring, k - 1), Inserted(ring, k, x);
    InRing(next, prev, ring, k - 1);
    InRing(next, prev, ring, if k < |ring| then k else 0);
    var next', prev' := next[x := t][a := x], prev[x := a][t := x];
    InsertedMembers(ring, k, x, |next|);
    forall j | 0 <= j < |ring'| ensures EntryOk(next', prev', ring', j) {
      LinkAt(next, prev, ring, k, x, j);
    }
    assert a in ring && t in ring;
    hide Inserted, EntryOk;
    assert forall i :: 0 <= i < |next| && i !in ring' ==> next'[i] == i && prev'[i] == i;
  }

  // ---------------------------------------------------------------- entries

  datatype Entry = Entry(next: nat, prev: nat, timeout: nat, free: bool)

  function Nexts(es: seq<Entry>): (r: seq<nat>) {
    seq(|es|, i requires 0 <= i < |es| => es[i].next)
  }

  function Prevs(es: seq<Entry>): (r: seq<nat>) {
    seq(|es|, i requires 0 <= i < |es| => es[i].prev)
  }

  predicate Ordered(es: seq<Entry>, ring: seq<nat>)
    requires Listed(ring, |es|)
  {
    forall j, k :: 1 <= j < k < |ring| ==> es[ring[j]].timeout <= es[ring[k]].timeout
  }

  /** The list invariant: a circular doubly linked list through entry 0, sorted by timeout. */
  ghost predicate Ok(es: seq<Entry>, ring: seq<nat>) {
    && Linked(Nexts(es), Prevs(es), ring)
    && es[0].timeout == NO_TIMEOUT
    && (forall i :: 0 <= i < |es| ==> es[i].timeout <= NO_TIMEOUT)
    && Ordered(es, ring)
  }

  /** What the list stands for: the pending timers and their timeouts. */
  function Pending(es: seq<Entry>, ring: seq<nat>): (p: map<nat, nat>) {
    map i: nat | 0 < i < |es| && i in ring :: es[i].timeout
  }

  predicate SameBut(a: seq<Entry>, b: seq<Entry>, x: nat) {
    && |a| == |b|
    && (forall i :: 0 <= i < |a| ==> a[i].free == b[i].free && (i != x ==> a[i].timeout == b[i].timeout))
  }

  /** The entries after taking `x` out of the list (the three assignments of cancel). */
  function Cut(es: seq<Entry>, x: nat): (r: seq<Entry>)
    requires x < |es| && es[x].next < |es| && es[x].prev < |es|
  {
    var a, b := es[x].prev, es[x].next;
    var es1 := es[b := es[b].(prev := a)];
    var es2 := es1[a := es1[a].(next := b)];
    es2[x := es2[x].(next := x, prev := x)]
  }

  /** The entries after putting `x` in front of `t` (the assignments of request). */
  function Put(es: seq<Entry>, x: nat, t: nat, to: nat): (r: seq<Entry>)
    requires x < |es| && t < |es| && es[t].prev < |es| && x != t
  {
    var a := es[t].prev;
    var es1 := es[x := es[x].(timeout := to, next := t, prev := a)];
    var es2 := es1[a := es1[a].(next := x)];
    es2[t := es2[t].(prev := x)]
  }

  lemma {:induction false} CutFields(es: seq<Entry>, x: nat)
    requires x < |es| && es[x].next < |es| && es[x].prev < |es|
    ensures var a, b, es' := es[x].prev, es[x].next, Cut(es, x);
            && Nexts(es') == Nexts(es)[a := b][x := x] && Prevs(es') == Prevs(es)[b := a][x := x]
            && SameBut(es, es', |es|)
  {}

  lemma {:induction false} PutFields(es: seq<Entry>, x: nat, t: nat, to: nat)
    requires x < |es| && t < |es| && es[t].prev < |es| && x != t && es[t].prev != x
    ensures var a, es' := es[t].prev, Put(es, x, t, to);
            && Nexts(es') == Nexts(es)[x := t][a := x] && Prevs(es') == Prevs(es)[x := a][t := x]
            && SameBut(es, es', x) && es'[x].timeout == to
  {}

  lemma {:induction false} RemovedPending(es: seq<Entry>, es': seq<Entry>, ring: seq<nat>, k: nat)
    requires Listed(ring, |es|) && 0 < k < |ring| && SameBut(es, es', |es|)
    ensures Pending(es', Removed(ring, k)) == Pending(es, ring) - {ring[k]}
  {
    hide Listed, Removed;
    RemovedMembers(ring, k, |es|);
    var p, p' := Pending(es, ring) - {ring[k]}, Pending(es', Removed(ring, k));
    assert p.Keys == p'.Keys;
  }

  lemma {:induction false} InsertedPending(es: seq<Entry>, es': seq<Entry>, ring: seq<nat>, k: nat, x: nat)
    requires Listed(ring, |es|) && 0 < k <= |ring| && 0 < x < |es| && x !in ring && SameBut(es, es', x)
    ensures Pending(es', Inserted(ring, k, x)) == Pending(es, ring)[x := es'[x].timeout]
  {
    InsertedMembers(ring, k, x, |es|);
    hide Listed, Inserted;
  }

  lemma {:induction false} RemovedOrdered(es: seq<Entry>, es': seq<Entry>, ring: seq<nat>, k: nat)
    requires Listed(ring, |es|) && Ordered(es, ring) && 0 < k < |ring| && SameBut(es, es', |es|)
    ensures Listed(Removed(ring, k), |es|) && Ordered(es', Removed(ring, k))
  {
    RemovedMembers(ring, k, |es|);
    var ring' := Removed(ring, k);
    assert forall i :: 0 <= i < |ring'| ==> ring'[i] == ring[if i < k then i else i + 1];
    forall i, j | 1 <= i < j < |ring'| ensures es'[ring'[i]].timeout <= es'[ring'[j]].timeout {
      hide Listed, Removed;
      var i0, j0 := if i < k then i else i + 1, if j < k then j else j + 1;
      assert es[ring[i0]].timeout <= es[ring[j0]].timeout;
    }
  }

  lemma {:induction false} InsertedOrdered(es: seq<Entry>, es': seq<Entry>, ring: seq<nat>, k: nat, x: nat)
    requires Listed(ring, |es|) && Ordered(es, ring) && 0 < k <= |ring| && 0 < x < |es| && x !in ring
    requires SameBut(es, es', x)
    requires forall j :: 1 <= j < k ==> es[ring[j]].timeout < es'[x].timeout
    requires k < |ring| ==> es'[x].timeout <= es[ring[k]].timeout
    ensures Listed(Inserted(ring, k, x), |es|) && Ordered(es', Inserted(ring, k, x))
  {
    InsertedMembers(ring, k, x, |es|);
    var ring' := Inserted(ring, k, x);
    assert forall i :: 0 <= i < k ==> ring'[i] == ring[i];
    assert ring'[k] == x;
    assert forall i :: k < i < |ring'| ==> ring'[i] == ring[i - 1];
    forall i, j | 1 <= i < j < |ring'| ensures es'[ring'[i]].timeout <= es'[ring'[j]].timeout {
      hide Listed, Inserted;
      var i0, j0 := if i <= k then i else i - 1, if j <= k then j else j - 1;
      assert i != k && j != k ==> es[ring[i0]].timeout <= es[ring[j0]].timeout;
      assert i == k && k < j0 ==> es[ring[k]].timeout <= es[ring[j0]].timeout;
    }
  }

  /** Taking a listed entry out keeps the list well formed and every other timer. */
  lemma {:induction false} CutOk(es: seq<Entry>, ring: seq<nat>, k: nat)
    requires Ok(es, ring) && 0 < k < |ring|
    ensures ring[k] < |es| && es[ring[k]].next < |es| && es[ring[k]].prev < |es|
    ensures var es' := Cut(es, ring[k]);
            && Ok(es', Removed(ring, k))
            && Pending(es', Removed(ring, k)) == Pending(es, ring) - {ring[k]}
            && SameBut(es, es', |es|)
  {
    InRing(Nexts(es), Prevs(es), ring, k);
    Unlink(Nexts(es), Prevs(es), ring, k);
    CutFields(es, ring[k]);
    RemovedOrdered(es, Cut(es, ring[k]), ring, k);
    RemovedPending(es, Cut(es, ring[k]), ring, k);
    hide Linked, Listed, Ordered, Pending, Cut, Removed, After, Before;
  }

  /** Putting an unlisted entry in front of the first one that is not earlier keeps the list sorted. */
  lemma {:induction false} PutOk(es: seq<Entry>, ring: seq<nat>, k: nat, x: nat, to: nat)
    requires Ok(es, ring) && 0 < k <= |ring| && 0 < x < |es| && x !in ring && to <= NO_TIMEOUT
    requires forall j :: 1 <= j < k ==> es[ring[j]].timeout < to
    requires k < |ring| ==> to <= es[ring[k]].timeout
    ensures var t := After(ring, k - 1);
            && t < |es| && es[t].prev < |es| && t != x
            && var es' := Put(es, x, t, to);
              && Ok(es', Inserted(ring, k, x))
              && Pending(es', Inserted(ring, k, x)) == Pending(es, ring)[x := to]
              && SameBut(es, es', x) && es'[x].timeout == to
  {
    var t, a := After(ring, k - 1), ring[k - 1];
    Link(Nexts(es), Prevs(es), ring, k, x);
    assert t in ring && a in ring;
    PutFields(es, x, t, to);
    InsertedOrdered(es, Put(es, x, t, to), ring, k, x);
    InsertedPending(es, Put(es, x, t, to), ring, k, x);
    hide Linked, Listed, Ordered, Pending, Put, Inserted, After;
  }

  /** The list without `x`, in the same order. */
  function Without(ring: seq<nat>, x: nat): (r: seq<nat>) {
    if ring == [] then [] else if ring[0] == x then Without(ring[1..], x) else [ring[0]] + Without(ring[1..], x)
  }

  lemma {:induction false} WithoutAbsent(ring: seq<nat>, x: nat)
    requires x !in ring
    ensures Without(ring, x) == ring
  {
    if ring != [] {
      WithoutAbsent(ring[1..], x);
    }
  }

  lemma {:induction false} WithoutJoin(a: seq<nat>, b: seq<nat>, x: nat)
    ensures Without(a + b, x) == Without(a, x) + Without(b, x)
  {
    if a == [] {
      assert a + b == b;
    } else {
      WithoutJoin(a[1..], b, x);
      assert (a + b)[1..] == a[1..] + b && (a + b)[0] == a[0];
      var u, v := Without(a[1..], x), Without(b, x);
      assert [a[0]] + (u + v) == [a[0]] + u + v;
    }
  }

  /** Around one position: what is left without the entry there. */
  lemma {:induction false} WithoutMiddle(a: seq<nat>, b: seq<nat>, x: nat)
    requires x !in a && x !in b
    ensures Without(a + [x] + b, x) == a + b
  {
    WithoutJoin(a + [x], b, x);
    WithoutJoin(a, [x], x);
    WithoutAbsent(a, x);
    WithoutAbsent(b, x);
    assert Without([x], x) == [];
  }

  lemma {:induction false} RemovedIsWithout(ring: seq<nat>, k: nat, n: nat)
    requires Listed(ring, n) && k < |ring|
    ensures Removed(ring, k) == Without(ring, ring[k])
  {
    assert ring == ring[..k] + [ring[k]] + ring[k + 1..];
    WithoutMiddle(ring[..k], ring[k + 1..], ring[k]);
  }

  lemma {:induction false} InsertedWithout(ring: seq<nat>, k: nat, x: nat)
    requires k <= |ring| && x !in ring
    ensures Without(Inserted(ring, k, x), x) == ring
  {
    WithoutMiddle(ring[..k], ring[k..], x);
    assert ring == ring[..k] + ring[k..];
  }

  ghost predicate IsEarliest(p: map<nat, nat>, to: nat) {
    && to <= NO_TIMEOUT
    && (forall i :: i in p ==> to <= p[i])
    && (to == NO_TIMEOUT || exists i :: i in p && p[i] == to)
  }

  /** `nr` is an earliest timer that is due, and 0 exactly when none is due. */
  ghost predicate IsNext(p: map<nat, nat>, now: nat, nr: nat) {
    && (nr == 0 <==> forall i :: i in p ==> now < p[i])
    && (nr != 0 ==> nr in p && p[nr] <= now && IsEarliest(p, p[nr]))
  }

  /** The entry behind entry 0 is the earliest timer, or entry 0 itself when nothing is pending. */
  lemma {:induction false} HeadIsEarliest(es: seq<Entry>, ring: seq<nat>)
    requires Ok(es, ring)
    ensures var h := es[0].next;
            && h < |es| && |ring| > 0 && ring[0] == 0 && h == After(ring, 0) && IsEarliest(Pending(es, ring), es[h].timeout)
            && (h == 0 <==> |ring| == 1) && (h == 0 <==> Pending(es, ring) == map[])
            && (h != 0 ==> ring[1] == h && h in Pending(es, ring))
  {
    var h, p := es[0].next, Pending(es, ring);
    InRing(Nexts(es), Prevs(es), ring, 0);
    assert h == After(ring, 0);
    forall i | i in p ensures |ring| > 1 && es[h].timeout <= p[i] {
      var k :| 0 <= k < |ring| && ring[k] == i;
    }
    assert |ring| > 1 ==> ring[1] in p;
  }

  /** An entry is linked to itself exactly when its timer is not pending. */
  lemma {:induction false} SelfLinked(es: seq<Entry>, ring: seq<nat>, x: nat)
    requires Ok(es, ring) && 0 < x < |es|
    ensures es[x].next < |es| && es[x].prev < |es|
    ensures es[x].next == x <==> x !in ring
  {
    if x in ring {
      var k :| 0 <= k < |ring| && ring[k] == x;
      InRing(Nexts(es), Prevs(es), ring, k);
    } else {
      assert Nexts(es)[x] == x && Prevs(es)[x] == x;
    }
  }

  lemma {:induction false} NoCut(es: seq<Entry>, ring: seq<nat>, x: nat)
    requires x !in ring
    ensures Without(ring, x) == ring && Pending(es, ring) == Pending(es, ring) - {x} && SameBut(es, es, |es|)
  {
    WithoutAbsent(ring, x);
  }

  /** What cancel does to the list: nothing to an entry that is not pending. */
  lemma {:induction false} CancelOk(es: seq<Entry>, ring: seq<nat>, x: nat)
    requires Ok(es, ring) && 0 < x < |es|
    ensures es[x].next < |es| && es[x].prev < |es| && |ring| > 0 && ring[0] == 0
    ensures es[x].next == x <==> x !in ring
    ensures x in ring ==> |ring| > 1 && (es[0].next == x <==> ring[1] == x)
    ensures var es', ring' := if x in ring then Cut(es, x) else es, Without(ring, x);
            && Ok(es', ring') && Pending(es', ring') == Pending(es, ring) - {x} && SameBut(es, es', |es|)
  {
    SelfLinked(es, ring, x);
    HeadIsEarliest(es, ring);
    assert Listed(ring, |es|);
    hide *;
    if x in ring {
      var k: nat :| k < |ring| && ring[k] == x;
      CutOk(es, ring, k);
      RemovedIsWithout(ring, k, |es|);
    } else {
      NoCut(es, ring, x);
    }
  }

  /** One step of the search in request(): past the entries that are earlier than `to`. */
  lemma {:induction false} WalkStep(es: seq<Entry>, ring: seq<nat>, k: nat, to: nat)
    requires Ok(es, ring) && 0 < k <= |ring| && to <= NO_TIMEOUT
    ensures var t := After(ring, k - 1);
            && t < |es| && (k < |ring| ==> t == ring[k])
            && (es[t].timeout < to ==> k < |ring| && es[t].next == After(ring, k))
  {
    InRing(Nexts(es), Prevs(es), ring, k - 1);
    if k < |ring| {
      InRing(Nexts(es), Prevs(es), ring, k);
    }
  }

  /** `t` is the first entry from position 1 on, entry 0 at the latest, that is not earlier than `to`. */
  predicate Place(es: seq<Entry>, ring: seq<nat>, to: nat, k: nat, t: nat) {
    && 0 < k <= |ring| && t == After(ring, k - 1)
    && (forall j :: 1 <= j < k ==> ring[j] < |es| && es[ring[j]].timeout < to)
    && (k < |ring| ==> ring[k] < |es| && to <= es[ring[k]].timeout)
  }

  /** Every timer queued before `x` is strictly earlier. */
  predicate BehindEarlier(es: seq<Entry>, ring: seq<nat>, x: nat) {
    forall j, k :: 1 <= j < k < |ring| && ring[k] == x && ring[j] < |es| && x < |es| ==>
                     es[ring[j]].timeout < es[x].timeout
  }

  lemma {:induction false} WithoutLacks(ring: seq<nat>, x: nat)
    ensures x !in Without(ring, x)
  {
    if ring != [] {
      WithoutLacks(ring[1..], x);
    }
  }

  lemma {:induction false} EarliestIsUnique(p: map<nat, nat>, a: nat, b: nat)
    requires IsEarliest(p, a) && IsEarliest(p, b)
    ensures a == b
  {}

  lemma {:induction false} PlacedBehind(es: seq<Entry>, es': seq<Entry>, ring: seq<nat>, k: nat, x: nat, to: nat)
    requires 0 < k <= |ring| && x !in ring && SameBut(es, es', x)
    requires forall j :: 1 <= j < k ==> ring[j] < |es| && es[ring[j]].timeout < to
    requires x < |es| && es'[x].timeout == to
    ensures BehindEarlier(es', Inserted(ring, k, x), x)
  {
    var ring' := Inserted(ring, k, x);
    assert forall i :: 0 <= i < k ==> ring'[i] == ring[i];
    assert forall i :: k < i < |ring'| ==> ring'[i] == ring[i - 1];
  }

  /** What request does to a list that `x` is not in. */
  lemma {:induction false} RequestOk(es: seq<Entry>, ring: seq<nat>, x: nat, to: nat, k: nat, t: nat)
    requires Ok(es, ring) && 0 < x < |es| && x !in ring && to <= NO_TIMEOUT && Place(es, ring, to, k, t)
    ensures && t < |es| && es[t].prev < |es| && t != x && es[t].prev != x
            && var es', ring' := Put(es, x, t, to), Inserted(ring, k, x);
              && Ok(es', ring') && Pending(es', ring') == Pending(es, ring)[x := to]
              && SameBut(es, es', x) && Without(ring', x) == ring && BehindEarlier(es', ring', x)
  {
    assert t in ring && 0 < x;
    PutOk(es, ring, k, x, to);
    PlacedBehind(es, Put(es, x, t, to), ring, k, x, to);
    InsertedWithout(ring, k, x);
    Link(Nexts(es), Prevs(es), ring, k, x);
    assert es[t].prev == ring[k - 1];
    hide *;
  }

  lemma {:induction false} RequestResult(p: map<nat, nat>, p': map<nat, nat>, a: nat, b: nat)
    requires IsEarliest(p, a) && IsEarliest(p', b)
    ensures a == b <==> exists e :: IsEarliest(p, e) && IsEarliest(p', e)
  {
    if e :| IsEarliest(p, e) && IsEarliest(p', e) {
      EarliestIsUnique(p, a, e);
      EarliestIsUnique(p', b, e);
    }
  }

  /** The first entry from `i` on that is not reserved. */
  function FirstFree(es: seq<Entry>, i: nat): (r: Option<nat>)
    ensures r.Some? ==> i <= r.value < |es| && es[r.value].free
    ensures r.Some? ==> forall j :: i <= j < r.value ==> !es[j].free
    ensures r.None? ==> forall j :: i <= j < |es| ==> !es[j].free
    decreases |es| - i
  {
    if i >= |es| then None else if es[i].free then Some(i) else FirstFree(es, i + 1)
  }

  /** Reserving an entry has nothing to do with its timer. */
  lemma {:induction false} FreeOnly(es: seq<Entry>, ring: seq<nat>, i: nat, free: bool)
    requires i < |es|
    ensures var es' := es[i := es[i].(free := free)];
            && (Ok(es, ring) ==> Ok(es', ring)) && Pending(es', ring) == Pending(es, ring)
  {
    var es' := es[i := es[i].(free := free)];
    assert Nexts(es') == Nexts(es) && Prevs(es') == Prevs(es);
  }

  class TimeoutList {
    const entries: array<Entry>
    ghost var ring: seq<nat>

    ghost predicate Valid()
      reads this, entries
    {
      Ok(entries[..], ring)
    }

    ghost function Timers(): (p: map<nat, nat>)
      reads this, entries
    {
      Pending(entries[..], ring)
    }

    constructor (n: nat)
      requires n > 0
      ensures Valid() && Timers() == map[] && fresh(entries) && entries.Length == n
      ensures forall i :: 0 <= i < n ==> entries[i].free
    {
      entries := new Entry[n];
      ring := [0];
      new;
      for i := 0 to n
        invariant ring == [0]
        invariant forall j :: 0 <= j < i ==> entries[j] == Entry(j, j, 0, true)
      {
        entries[i] := Entry(i, i, 0, true);
      }
      entries[0] := entries[0].(timeout := NO_TIMEOUT);
      assert EntryOk(Nexts(entries[..]), Prevs(entries[..]), ring, 0);
    }

    /** The smallest pending timeout, NO_TIMEOUT when there is none. */
    method Timeout() returns (to: nat)
      requires Valid()
      ensures IsEarliest(Timers(), to)
    {
      HeadIsEarliest(entries[..], ring);
      to := entries[entries[0].next].timeout;
    }

    /** The earliest timer that is due at `now`, 0 if there is none. */
    method Trigger(now: nat) returns (nr: nat)
      requires Valid()
      ensures IsNext(Timers(), now, nr)
    {
      HeadIsEarliest(entries[..], ring);
      var to := Timeout();
      if now >= to {
        nr := entries[0].next;
      } else {
        nr := 0;
      }
    }

    /** Cancels timer `nr`; says whether it was pending behind another one. */
    method Cancel(nr: nat) returns (res: bool)
      requires Valid() && 1 <= nr < entries.Length
      modifies this, entries
      ensures Valid() && Timers() == old(Timers()) - {nr} && ring == Without(old(ring), nr)
      ensures SameBut(old(entries[..]), entries[..], entries.Length)
      ensures res <==> nr in old(ring) && old(ring)[1] != nr
    {
      ghost var es := entries[..];
      CancelOk(es, ring, nr);
      hide Ok, Pending, Without, SameBut;
      ring := Without(ring, nr);
      if entries[nr].next == nr {
        return false;
      }
      res := entries[0].next != nr;
      var next, prev := entries[nr].next, entries[nr].prev;
      entries[next] := entries[next].(prev := prev);
      entries[prev] := entries[prev].(next := next);
      entries[nr] := entries[nr].(next := nr, prev := nr);
      assert entries[..] == Cut(es, nr);
    }

    /** The search loop of request(). */
    method FindPlace(to: nat) returns (t: nat, ghost k: nat)
      requires Valid() && to <= NO_TIMEOUT
      ensures t < entries.Length && to <= entries[t].timeout
      ensures 0 < k <= |ring| && Place(entries[..], ring, to, k, t)
    {
      hide Ok, Pending, IsEarliest, After;
      ghost var es := entries[..];
      k := 1;
      HeadIsEarliest(es, ring);
      t := entries[0].next;
      while entries[t].timeout < to
        invariant 0 < k <= |ring| && t == After(ring, k - 1) && t < |es|
        invariant forall j :: 1 <= j < k ==> ring[j] < |es| && es[ring[j]].timeout < to
        decreases |ring| - k
      {
        WalkStep(es, ring, k, to);
        t, k := entries[t].next, k + 1;
        WalkStep(es, ring, k, to);
      }
      WalkStep(es, ring, k, to);
    }

    /** Sets timer `nr` to `to`, in front of the first timer that is not earlier. */
    method Request(nr: nat, to: nat) returns (res: bool)
      requires Valid() && 1 <= nr < entries.Length && to <= NO_TIMEOUT
      modifies this, entries
      ensures Valid() && Timers() == old(Timers())[nr := to]
      ensures SameBut(old(entries[..]), entries[..], nr)
      ensures Without(ring, nr) == Without(old(ring), nr) && BehindEarlier(entries[..], ring, nr)
      ensures res <==> exists e :: IsEarliest(old(Timers()), e) && IsEarliest(Timers(), e)
    {
      hide Ok, Pending, Without, Inserted, BehindEarlier, Put, Place, IsEarliest;
      var before := Timeout();
      var _ := Cancel(nr);
      ghost var es := entries[..];
      WithoutLacks(old(ring), nr);
      var t, k := FindPlace(to);
      RequestOk(es, ring, nr, to, k, t);
      PutInPlace(nr, t, to);
      ring := Inserted(ring, k, nr);
      var now := Timeout();
      res := now == before;
      RequestResult(old(Timers()), Timers(), before, now);
      assert old(Timers())[nr := to] == (old(Timers()) - {nr})[nr := to];
    }

    /** The assignments of request(), in front of entry `t`. */
    method PutInPlace(nr: nat, t: nat, to: nat)
      requires nr < entries.Length && t < entries.Length && t != nr
      requires entries[t].prev < entries.Length && entries[t].prev != nr
      modifies entries
      ensures entries[..] == Put(old(entries[..]), nr, t, to)
    {
      entries[nr] := entries[nr].(timeout := to);
      entries[nr] := entries[nr].(next := t);
      entries[nr] := entries[nr].(prev := entries[t].prev);
      entries[entries[t].prev] := entries[entries[t].prev].(next := nr);
      entries[t] := entries[t].(prev := nr);
    }

    /** Reserves the first unreserved entry; there may be none. */
    method Alloc() returns (nr: Option<nat>)
      modifies entries
      ensures nr == FirstFree(old(entries[..]), 1)
      ensures nr.Some? ==> nr.value < entries.Length
      ensures nr.Some? ==> entries[..] == old(entries[..])[nr.value := old(entries[..])[nr.value].(free := false)]
      ensures nr.None? ==> entries[..] == old(entries[..])
      ensures old(Valid()) ==> Valid() && Timers() == old(Timers())
    {
      var i := 1;
      while i < entries.Length
        invariant i >= 1 && entries[..] == old(entries[..])
        invariant FirstFree(entries[..], 1) == FirstFree(entries[..], i)
      {
        if entries[i].free {
          ghost var es := entries[..];
          entries[i] := entries[i].(free := false);
          FreeOnly(es, ring, i, false);
          return Some(i);
        }
        i := i + 1;
      }
      return None;
    }

    /** Gives a reserved entry back, cancelling its timer only on demand. */
    method Dealloc(nr: nat, withCancel: bool) returns (done: bool)
      requires Valid() && 1 <= nr < entries.Length
      modifies this, entries
      ensures Valid() && done == !old(entries[nr].free) && entries[nr].free
      ensures forall i :: 0 <= i < entries.Length && i != nr ==> entries[i].free == old(entries[i].free)
      ensures Timers() == if done && withCancel then old(Timers()) - {nr} else old(Timers())
    {
      if entries[nr].free {
        return false;
      }
      if withCancel {
        var _ := Cancel(nr);
      }
      ghost var es := entries[..];
      entries[nr] := entries[nr].(free := true);
      FreeOnly(es, ring, nr, true);
      hide Ok, Pending, Without;
      done := true;
    }
  }

  // ---------------------------------------------------------------- the drain loop

  datatype Fired = Fired(nr: nat, to: nat)

  /** What a device does on a timeout message: set or cancel timers. */
  datatype Action = Ask(nr: nat, to: nat) | Drop(nr: nat)

  type Handler = seq<Fired> -> seq<Action>

  function Act(p: map<nat, nat>, a: Action): (r: map<nat, nat>) {
    match a
    case Ask(nr, to) => p[nr := to]
    case Drop(nr) => p - {nr}
  }

  function ActAll(p: map<nat, nat>, acts: seq<Action>): (r: map<nat, nat>) {
    if acts == [] then p else Act(ActAll(p, acts[..|acts| - 1]), acts[|acts| - 1])
  }

  /** The pending timers after the given ones have fired and their messages were handled. */
  function Outcome(p: map<nat, nat>, handler: Handler, fired: seq<Fired>): (r: map<nat, nat>) {
    if fired == [] then p
    else
      var last := |fired| - 1;
      ActAll(Outcome(p, handler, fired[..last]) - {fired[last].nr}, handler(fired))
  }

  function Nrs(acts: seq<Action>): (r: set<nat>) {
    set a | a in acts :: a.nr
  }

  /** The timers that the handlers have set or cancelled on the way. */
  function Touched(handler: Handler, fired: seq<Fired>): (r: set<nat>) {
    if fired == [] then {} else Touched(handler, fired[..|fired| - 1]) + Nrs(handler(fired))
  }

  function FiredNrs(fired: seq<Fired>): (r: set<nat>) {
    set f | f in fired :: f.nr
  }

  function Due(p: map<nat, nat>, now: nat): (r: map<nat, nat>) {
    map i | i in p && p[i] <= now :: p[i]
  }

  predicate FutureOnly(acts: seq<Action>, n: nat, now: nat) {
    forall a :: a in acts ==> 1 <= a.nr < n && (a.Ask? ==> now < a.to <= NO_TIMEOUT)
  }

  /** No handler sets a timer that is already due. */
  ghost predicate Patient(handler: Handler, n: nat, now: nat) {
    forall h :: FutureOnly(handler(h), n, now)
  }

  lemma {:induction false} ActAllDue(p: map<nat, nat>, acts: seq<Action>, n: nat, now: nat)
    requires FutureOnly(acts, n, now)
    ensures Due(ActAll(p, acts), now) == Due(p, now) - Nrs(acts)
  {
    if acts == [] {
      assert Nrs(acts) == {};
    } else {
      var rest, a := acts[..|acts| - 1], acts[|acts| - 1];
      ActAllDue(p, rest, n, now);
      assert acts == rest + [a];
      assert Nrs(acts) == Nrs(rest) + {a.nr};
      var q := ActAll(p, rest);
      assert Due(Act(q, a), now) == Due(q, now) - {a.nr};
    }
  }

  /** What is still due: what was due, less what has fired and what handlers have changed. */
  lemma {:induction false} OutcomeDue(p: map<nat, nat>, handler: Handler, fired: seq<Fired>, n: nat, now: nat)
    requires Patient(handler, n, now)
    ensures Due(Outcome(p, handler, fired), now) == Due(p, now) - FiredNrs(fired) - Touched(handler, fired)
  {
    if fired == [] {
      assert FiredNrs(fired) == {};
    } else {
      var rest, f := fired[..|fired| - 1], fired[|fired| - 1];
      OutcomeDue(p, handler, rest, n, now);
      assert fired == rest + [f];
      assert FiredNrs(fired) == FiredNrs(rest) + {f.nr};
      var q := Outcome(p, handler, rest);
      assert Due(q - {f.nr}, now) == Due(q, now) - {f.nr};
      ActAllDue(q - {f.nr}, handler(fired), n, now);
    }
  }

  /** Only due timers have fired, each once, at its own timeout, in order of time. */
  predicate FiredInOrder(p: map<nat, nat>, now: nat, fired: seq<Fired>) {
    && (forall j :: 0 <= j < |fired| ==> fired[j].nr in p && p[fired[j].nr] == fired[j].to <= now)
    && (forall j, k :: 0 <= j < k < |fired| ==> fired[j].nr != fired[k].nr && fired[j].to <= fired[k].to)
  }

  predicate NoneEarlier(p: map<nat, nat>, now: nat, fired: seq<Fired>) {
    forall j, i :: 0 <= j < |fired| && i in Due(p, now) ==> fired[j].to <= p[i]
  }

  /** Every timer that is still due has not fired yet, and is as it was. */
  lemma {:induction false} StillDue(p0: map<nat, nat>, handler: Handler, fired: seq<Fired>, n: nat, now: nat, i: nat)
    requires Patient(handler, n, now) && i in Outcome(p0, handler, fired) && Outcome(p0, handler, fired)[i] <= now
    ensures i in p0 && p0[i] == Outcome(p0, handler, fired)[i]
    ensures forall j :: 0 <= j < |fired| ==> fired[j].nr != i
    ensures i !in Touched(handler, fired)
  {
    OutcomeDue(p0, handler, fired, n, now);
    hide Outcome, Touched;
    var p := Outcome(p0, handler, fired);
    assert i in Due(p, now) && Due(p, now)[i] == p[i];
    assert forall j :: 0 <= j < |fired| ==> fired[j] in fired;
  }

  lemma {:induction false} FiredNext(p: map<nat, nat>, now: nat, fired: seq<Fired>, f: Fired)
    requires FiredInOrder(p, now, fired) && f.nr in p && p[f.nr] == f.to <= now
    requires forall j :: 0 <= j < |fired| ==> fired[j].nr != f.nr && fired[j].to <= f.to
    ensures FiredInOrder(p, now, fired + [f])
  {}

  lemma {:induction false} DueAfter(p0: map<nat, nat>, handler: Handler, fired: seq<Fired>, f: Fired, n: nat, now: nat)
    requires Patient(handler, n, now)
    requires f.nr in Outcome(p0, handler, fired) && Outcome(p0, handler, fired)[f.nr] <= now
    ensures Outcome(p0, handler, fired + [f]) == ActAll(Outcome(p0, handler, fired) - {f.nr}, handler(fired + [f]))
    ensures var d, d' := Due(Outcome(p0, handler, fired), now), Due(Outcome(p0, handler, fired + [f]), now);
            && d'.Keys < d.Keys && forall i :: i in d' ==> d'[i] == d[i]
  {
    var p, fired' := Outcome(p0, handler, fired), fired + [f];
    assert fired'[..|fired'| - 1] == fired;
    var p' := ActAll(p - {f.nr}, handler(fired'));
    ActAllDue(p - {f.nr}, handler(fired'), n, now);
    assert Outcome(p0, handler, fired') == p';
    hide Outcome, ActAll;
    assert f.nr in Due(p, now) && f.nr !in Due(p', now);
  }

  /** No timer has fired that a handler had set or cancelled before its turn. */
  ghost predicate UntouchedFired(handler: Handler, fired: seq<Fired>) {
    forall j :: 0 <= j < |fired| ==> fired[j].nr !in Touched(handler, fired[..j])
  }

  lemma {:induction false} UntouchedNext(handler: Handler, fired: seq<Fired>, f: Fired)
    requires UntouchedFired(handler, fired) && f.nr !in Touched(handler, fired)
    ensures UntouchedFired(handler, fired + [f])
  {
    hide Touched;
    var fired' := fired + [f];
    assert fired'[..|fired|] == fired;
    forall j | 0 <= j < |fired| ensures fired'[j].nr !in Touched(handler, fired'[..j]) {
      assert fired'[..j] == fired[..j] && fired'[j] == fired[j];
    }
  }

  /** One round of the loop: the earliest due timer `nr` fires and its message is handled. */
  lemma {:induction false} DrainStep(p0: map<nat, nat>, handler: Handler, fired: seq<Fired>, n: nat, now: nat, nr: nat)
    requires Patient(handler, n, now) && FiredInOrder(p0, now, fired) && UntouchedFired(handler, fired)
    requires NoneEarlier(Outcome(p0, handler, fired), now, fired)
    requires var p := Outcome(p0, handler, fired);
             nr in p && p[nr] <= now && IsEarliest(p, p[nr])
    ensures var p := Outcome(p0, handler, fired);
            var fired' := fired + [Fired(nr, p[nr])];
            && FiredInOrder(p0, now, fired') && UntouchedFired(handler, fired')
            && Outcome(p0, handler, fired') == ActAll(p - {nr}, handler(fired'))
            && NoneEarlier(Outcome(p0, handler, fired'), now, fired')
            && Due(Outcome(p0, handler, fired'), now).Keys < Due(p, now).Keys
  {
    var p := Outcome(p0, handler, fired);
    var f := Fired(nr, p[nr]);
    StillDue(p0, handler, fired, n, now, nr);
    DueAfter(p0, handler, fired, f, n, now);
    hide Outcome, ActAll, FiredInOrder, Patient, UntouchedFired, Touched;
    assert nr in Due(p, now);
    FiredNext(p0, now, fired, f);
    UntouchedNext(handler, fired, f);
  }

  lemma {:induction false} DrainStart(p: map<nat, nat>, handler: Handler, now: nat)
    ensures Outcome(p, handler, []) == p && FiredInOrder(p, now, []) && NoneEarlier(p, now, [])
    ensures UntouchedFired(handler, [])
  {}

  lemma {:induction false} DrainDone(p0: map<nat, nat>, handler: Handler, fired: seq<Fired>, n: nat, now: nat)
    requires Patient(handler, n, now) && IsNext(Outcome(p0, handler, fired), now, 0)
    ensures Due(Outcome(p0, handler, fired), now) == map[]
    ensures Due(p0, now).Keys <= FiredNrs(fired) + Touched(handler, fired)
  {
    OutcomeDue(p0, handler, fired, n, now);
    hide Outcome, Touched, FiredNrs;
    assert Due(Outcome(p0, handler, fired), now) == map[];
    var d := Due(p0, now);
    forall i | i in d.Keys ensures i in FiredNrs(fired) + Touched(handler, fired) {
      assert i !in d - FiredNrs(fired) - Touched(handler, fired);
    }
  }

  /** What was done to the timers, in order: a timer that fires is dropped, and its message is handled. */
  function Messages(handler: Handler, fired: seq<Fired>): seq<Action> {
    if fired == [] then []
    else
      var last := |fired| - 1;
      Messages(handler, fired[..last]) + ([Drop(fired[last].nr)] + handler(fired))
  }

  /** The last message about timer `nr`. */
  function LastWord(acts: seq<Action>, nr: nat): Option<Action> {
    if acts == [] then None
    else if acts[|acts| - 1].nr == nr then Some(acts[|acts| - 1])
    else LastWord(acts[..|acts| - 1], nr)
  }

  /** Timer `nr` is in `q` what the last message made of it, or what it was in `p` without one. */
  predicate AsTold(p: map<nat, nat>, q: map<nat, nat>, nr: nat, word: Option<Action>) {
    match word
    case None => (nr in q <==> nr in p) && (nr in p ==> q[nr] == p[nr])
    case Some(Ask(_, to)) => nr in q && q[nr] == to
    case Some(Drop(_)) => nr !in q
  }

  lemma {:induction false} ActAllAsTold(p: map<nat, nat>, acts: seq<Action>, nr: nat)
    ensures AsTold(p, ActAll(p, acts), nr, LastWord(acts, nr))
  {
    if acts != [] { ActAllAsTold(p, acts[..|acts| - 1], nr); }
  }

  lemma {:induction false} ActAllAppend(p: map<nat, nat>, a: seq<Action>, b: seq<Action>)
    ensures ActAll(p, a + b) == ActAll(ActAll(p, a), b)
  {
    if b == [] {
      assert a + b == a;
    } else {
      var c := b[..|b| - 1];
      assert (a + b)[..|a + b| - 1] == a + c;
      ActAllAppend(p, a, c);
    }
  }

  lemma {:induction false} OutcomeOfMessages(p: map<nat, nat>, handler: Handler, fired: seq<Fired>)
    ensures Outcome(p, handler, fired) == ActAll(p, Messages(handler, fired))
  {
    if fired != [] {
      var last := |fired| - 1;
      var rest, drop := Messages(handler, fired[..last]), [Drop(fired[last].nr)];
      OutcomeOfMessages(p, handler, fired[..last]);
      ActAllAppend(p, rest, drop + handler(fired));
      ActAllAppend(ActAll(p, rest), drop, handler(fired));
      assert drop[..0] == [];
    }
  }

  lemma {:induction false} OutcomeAsTold(p: map<nat, nat>, handler: Handler, fired: seq<Fired>)
    ensures forall nr :: AsTold(p, Outcome(p, handler, fired), nr, LastWord(Messages(handler, fired), nr))
  {
    hide AsTold, Outcome, ActAll, Messages, LastWord;
    OutcomeOfMessages(p, handler, fired);
    forall nr ensures AsTold(p, Outcome(p, handler, fired), nr, LastWord(Messages(handler, fired), nr)) {
      ActAllAsTold(p, Messages(handler, fired), nr);
    }
  }

  /** Carries out what a handler wants. */
  method Perform(list: TimeoutList, acts: seq<Action>)
    requires list.Valid() && FutureOnly(acts, list.entries.Length, 0)
    modifies list, list.entries
    ensures list.Valid() && list.Timers() == ActAll(old(list.Timers()), acts)
  {
    for i := 0 to |acts|
      invariant list.Valid() && list.Timers() == ActAll(old(list.Timers()), acts[..i])
    {
      assert acts[..i + 1][..i] == acts[..i];
      match acts[i]
      case Ask(nr, to) =>
        var _ := list.Request(nr, to);
      case Drop(nr) =>
        var _ := list.Cancel(nr);
    }
    assert acts[..|acts|] == acts;
  }

  /**
   The loop of Timeouts::trigger. It ends, and then nothing is due. The timers that fired were
   due, each fired once with its own timeout and in order of time. A timer that was due did not
   fire only if a handler has set or cancelled it, and it did not if that was before its turn.
   Each timer ends up as the last message about it says.
   */
  method Drain(list: TimeoutList, now: nat, handler: Handler) returns (fired: seq<Fired>)
    requires list.Valid() && Patient(handler, list.entries.Length, now)
    modifies list, list.entries
    ensures list.Valid() && list.Timers() == Outcome(old(list.Timers()), handler, fired)
    ensures forall nr :: AsTold(old(list.Timers()), list.Timers(), nr, LastWord(Messages(handler, fired), nr))
    ensures Due(list.Timers(), now) == map[]
    ensures FiredInOrder(old(list.Timers()), now, fired) && UntouchedFired(handler, fired)
    ensures Due(old(list.Timers()), now).Keys <= FiredNrs(fired) + Touched(handler, fired)
  {
    ghost var p0, n := list.Timers(), list.entries.Length;
    fired := [];
    DrainStart(p0, handler, now);
    hide Outcome, FiredInOrder, UntouchedFired, NoneEarlier, Due, ActAll, IsEarliest, Touched, FiredNrs;
    hide AsTold, LastWord, Messages;
    hide Ok, Pending, Without, SameBut;
    var nr := list.Trigger(now);
    while nr != 0
      invariant list.Valid() && list.Timers() == Outcome(p0, handler, fired)
      invariant FiredInOrder(p0, now, fired) && UntouchedFired(handler, fired) && NoneEarlier(list.Timers(), now, fired)
      invariant IsNext(list.Timers(), now, nr)
      decreases Due(list.Timers(), now).Keys
    {
      DrainStep(p0, handler, fired, n, now, nr);
      var to := list.Timeout();
      EarliestIsUnique(list.Timers(), to, list.Timers()[nr]);
      fired := fired + [Fired(nr, to)];
      var _ := list.Cancel(nr);
      assert FutureOnly(handler(fired), n, now);
      Perform(list, handler(fired));
      nr := list.Trigger(now);
    }
    DrainDone(p0, handler, fired, n, now);
    OutcomeAsTold(p0, handler, fired);
  }
}
