/**
 Topology::divide (nre/include/util/Topology.h): CPUs are sorted by their place on the board
 and split into parts of neighbours, each with a leader.
 */
module Topology {
  import opened Bits
  import opened QuickSort

  /** thread, core and package are bytes. */
  datatype Cpu = Cpu(id: nat, thread: nat, core: nat, package: nat)

  predicate Bytes(c: Cpu) {
    c.thread < 256 && c.core < 256 && c.package < 256
  }

  // ---------------------------------------------------------------- the order

  function Place(c: Cpu): (r: nat) {
    Or(Or(c.package * Pow2(16), c.core * Pow2(8)), c.thread)
  }

  predicate CmpCpus(a: Cpu, b: Cpu) {
    Place(a) <= Place(b)
  }

  /** By package, then core, then thread. */
  predicate NotBehind(a: Cpu, b: Cpu) {
    || a.package < b.package
    || (a.package == b.package && (a.core < b.core || (a.core == b.core && a.thread <= b.thread)))
  }

  lemma {:induction false} OrBelow(x: nat, y: nat, k: nat)
    requires y < Pow2(k)
    ensures Or(x * Pow2(k), y) == x * Pow2(k) + y
  {
    if k == 0 {
      OrZero(x);
    } else {
      var p := Pow2(k - 1);
      assert x * Pow2(k) == 2 * (x * p);
      OrBelow(x, y / 2, k - 1);
    }
  }

  /** Comparing the packed numbers compares package, core and thread in this order. */
  lemma {:induction false} OrderIsByPlace(a: Cpu, b: Cpu)
    requires Bytes(a) && Bytes(b)
    ensures CmpCpus(a, b) <==> NotBehind(a, b)
  {
    PlaceIs(a);
    PlaceIs(b);
    hide Place;
  }

  lemma {:induction false} PlaceIs(c: Cpu)
    requires Bytes(c)
    ensures Place(c) == (c.package * 256 + c.core) * 256 + c.thread
  {
    assert Pow2(8) == 256 && Pow2(16) == 65536;
    OrBelow(c.package, c.core * Pow2(8), 16);
    OrBelow(c.package * 256 + c.core, c.thread, 8);
    assert c.package * Pow2(16) + c.core * Pow2(8) == (c.package * 256 + c.core) * Pow2(8);
  }

  // ---------------------------------------------------------------- the parts

  function Size(n: nat, parts: nat, i: nat): (r: nat)
    requires parts > 0
  {
    n / parts + (if i < n % parts then 1 else 0)
  }

  /** Where part `i` starts. */
  function Start(n: nat, parts: nat, i: nat): (r: nat)
    requires parts > 0
  {
    if i == 0 then 0 else Start(n, parts, i - 1) + Size(n, parts, i - 1)
  }

  predicate InPart(n: nat, parts: nat, i: int, j: int)
    requires parts > 0
  {
    0 <= i < parts && Start(n, parts, i) <= j < Start(n, parts, i + 1)
  }

  lemma {:induction false} StartIs(n: nat, parts: nat, i: nat)
    requires parts > 0
    ensures Start(n, parts, i) == i * (n / parts) + Min(i, n % parts)
  {
    if i > 0 {
      StartIs(n, parts, i - 1);
      assert i * (n / parts) == (i - 1) * (n / parts) + n / parts;
    }
  }

  /** The parts are non-empty, sizes differ by at most one, and together they are all CPUs. */
  lemma {:induction false} PartsAreBalanced(n: nat, parts: nat)
    requires 0 < parts <= n
    ensures Start(n, parts, parts) == n
    ensures forall i: nat, j: nat :: 1 <= Size(n, parts, i) <= Size(n, parts, j) + 1
  {
    StartIs(n, parts, parts);
    var q := n / parts;
    assert n == parts * q + n % parts;
    assert q == 0 ==> parts * q == 0;
  }

  lemma {:induction false} StartsGrow(n: nat, parts: nat, i: nat, j: nat)
    requires parts > 0 && i <= j
    ensures Start(n, parts, i) <= Start(n, parts, j)
  {
    if i < j {
      StartsGrow(n, parts, i, j - 1);
    }
  }

  /** Every position is in exactly one part. */
  lemma {:induction false} PartIsUnique(n: nat, parts: nat, i: nat, i': nat, j: nat)
    requires parts > 0 && InPart(n, parts, i, j) && InPart(n, parts, i', j)
    ensures i == i'
  {
    if i < i' {
      StartsGrow(n, parts, i + 1, i');
    } else if i' < i {
      StartsGrow(n, parts, i' + 1, i);
    }
  }

  lemma {:induction false} PartExists(n: nat, parts: nat, k: nat, j: nat) returns (i: nat)
    requires 0 < parts && k <= parts && j < Start(n, parts, k)
    ensures InPart(n, parts, i, j)
  {
    if j < Start(n, parts, k - 1) {
      i := PartExists(n, parts, k - 1, j);
    } else {
      i := k - 1;
    }
  }

  // ---------------------------------------------------------------- divide

  ghost predicate DistinctIds(cpus: seq<Cpu>) {
    forall i, j :: 0 <= i < j < |cpus| ==> cpus[i].id != cpus[j].id
  }

  predicate IdsBelow(cpus: seq<Cpu>, n: nat) {
    forall j :: 0 <= j < |cpus| ==> cpus[j].id < n
  }

  /** The CPUs before position `upTo` are led by the first one of their part. */
  ghost predicate Led(order: seq<Cpu>, leader: seq<nat>, parts: nat, upTo: int)
    requires parts > 0 && IdsBelow(order, |leader|)
  {
    forall i, j :: InPart(|order|, parts, i, j) && j < upTo && j < |order| ==>
                     leader[order[j].id] == order[Start(|order|, parts, i)].id
  }

  lemma {:induction false} OccursOnce(s: seq<Cpu>, x: Cpu)
    requires DistinctIds(s)
    ensures multiset(s)[x] <= 1
  {
    if s != [] {
      var rest, last := s[..|s| - 1], s[|s| - 1];
      assert s == rest + [last];
      OccursOnce(rest, x);
      assert forall i :: 0 <= i < |rest| ==> rest[i].id != last.id;
    }
  }

  lemma {:induction false} OccursTwice(s: seq<Cpu>, i: int, j: int)
    requires 0 <= i < j < |s| && s[i] == s[j]
    ensures multiset(s)[s[i]] >= 2
  {
    assert s == s[..j] + s[j..];
    assert s[..j][i] == s[i] && s[j..][0] == s[j];
    assert s[i] in multiset(s[..j]) && s[i] in multiset(s[j..]);
  }

  lemma {:induction false} SortedIds(cpus: seq<Cpu>, order: seq<Cpu>, n: nat)
    requires multiset(order) == multiset(cpus) && DistinctIds(cpus) && IdsBelow(cpus, n)
    ensures |order| == |cpus| && DistinctIds(order) && IdsBelow(order, n)
    ensures forall c :: c in order <==> c in cpus
  {
    assert |order| == |multiset(order)| == |multiset(cpus)| == |cpus|;
    forall c ensures c in order <==> c in cpus {
      assert c in order <==> c in multiset(order);
      assert c in cpus <==> c in multiset(cpus);
    }
    forall j | 0 <= j < |order| ensures order[j].id < n {
      assert order[j] in cpus;
    }
    forall i, j | 0 <= i < j < |order| ensures order[i].id != order[j].id {
      if order[i] == order[j] {
        OccursTwice(order, i, j);
        OccursOnce(cpus, order[i]);
      } else {
        assert order[i] in cpus && order[j] in cpus;
      }
    }
  }

  /** Nothing has changed for the CPUs other than those from position `from` to `to`. */
  ghost predicate Untouched(order: seq<Cpu>, from: int, to: int, before: seq<nat>, after: seq<nat>)
    requires 0 <= from <= to <= |order|
  {
    && |before| == |after|
    && forall x :: 0 <= x < |before| && (forall j :: from <= j < to ==> order[j].id != x) ==> after[x] == before[x]
  }

  /** The inner loop: the CPUs of one part get their leader. */
  method FillPart(order: seq<Cpu>, from: nat, to: nat, leader: nat, cpuCpu: array<nat>)
    requires from <= to <= |order| && IdsBelow(order, cpuCpu.Length)
    modifies cpuCpu
    ensures forall j :: from <= j < to ==> cpuCpu[order[j].id] == leader
    ensures Untouched(order, from, to, old(cpuCpu[..]), cpuCpu[..])
  {
    for cur := from to to
      invariant forall j :: from <= j < cur ==> cpuCpu[order[j].id] == leader
      invariant forall x :: 0 <= x < cpuCpu.Length && (forall j :: from <= j < cur ==> order[j].id != x) ==>
                              cpuCpu[x] == old(cpuCpu[x])
    {
      cpuCpu[order[cur].id] := leader;
    }
  }

  /** The parts up to `k` of the sorted CPUs have been handed out. */
  ghost predicate HandedOut(order: seq<Cpu>, parts: nat, k: nat, partCpu: seq<nat>, cpuCpu: seq<nat>)
    requires 0 < parts <= |order| && k <= parts && IdsBelow(order, |cpuCpu|)
  {
    && k <= |partCpu| && Start(|order|, parts, k) <= |order|
    && (forall i :: 0 <= i < k ==> Start(|order|, parts, i) < |order| && partCpu[i] == order[Start(|order|, parts, i)].id)
    && Led(order, cpuCpu, parts, Start(|order|, parts, k))
  }

  lemma {:induction false} HandOutNext(order: seq<Cpu>, parts: nat, k: nat, partCpu: seq<nat>, cpuCpu: seq<nat>, cpuCpu': seq<nat>)
    requires 0 < parts <= |order| && k < parts && k < |partCpu| && |cpuCpu'| == |cpuCpu|
    requires IdsBelow(order, |cpuCpu|) && DistinctIds(order)
    requires HandedOut(order, parts, k, partCpu, cpuCpu)
    requires var from, to := Start(|order|, parts, k), Start(|order|, parts, k + 1);
             && from < to <= |order|
             && (forall j :: from <= j < to ==> cpuCpu'[order[j].id] == order[from].id)
             && (forall j :: 0 <= j < from ==> cpuCpu'[order[j].id] == cpuCpu[order[j].id])
    ensures HandedOut(order, parts, k + 1, partCpu[k := order[Start(|order|, parts, k)].id], cpuCpu')
  {
    hide Start, DistinctIds;
    var n, from, to := |order|, Start(|order|, parts, k), Start(|order|, parts, k + 1);
    assert InPart(n, parts, k, from);
    forall i, j | InPart(n, parts, i, j) && j < to && j < n
      ensures Start(n, parts, i) < n && cpuCpu'[order[j].id] == order[Start(n, parts, i)].id
    {
      if j >= from {
        PartIsUnique(n, parts, i, k, j);
      }
    }
  }

  lemma {:induction false} PartBounds(n: nat, parts: nat, k: nat)
    requires 0 < parts <= n && k < parts
    ensures Start(n, parts, k) < Start(n, parts, k + 1) <= n
    ensures Start(n, parts, k + 1) == Start(n, parts, k) + Size(n, parts, k)
  {
    PartsAreBalanced(n, parts);
    StartsGrow(n, parts, k + 1, parts);
    assert 1 <= Size(n, parts, k);
  }

  lemma {:induction false} CmpIsTotal()
    ensures TotalPreorder(CmpCpus)
  {
    hide Place;
  }

  /** In the end every CPU has a leader of its own part, and a leader leads itself. */
  lemma {:induction false} AllHandedOut(order: seq<Cpu>, parts: nat, partCpu: seq<nat>, cpuCpu: seq<nat>)
    requires 0 < parts <= |order| && IdsBelow(order, |cpuCpu|)
    requires HandedOut(order, parts, parts, partCpu, cpuCpu)
    ensures Start(|order|, parts, parts) == |order| && parts <= |partCpu|
    ensures forall i :: 0 <= i < parts ==>
                          Start(|order|, parts, i) < |order| && partCpu[i] == order[Start(|order|, parts, i)].id
    ensures Led(order, cpuCpu, parts, |order|)
    ensures forall i :: 0 <= i < parts ==> partCpu[i] < |cpuCpu| && cpuCpu[partCpu[i]] == partCpu[i]
  {
    PartsAreBalanced(|order|, parts);
    forall i | 0 <= i < parts ensures partCpu[i] < |cpuCpu| && cpuCpu[partCpu[i]] == partCpu[i] {
      PartBounds(|order|, parts, i);
      assert InPart(|order|, parts, i, Start(|order|, parts, i));
    }
  }

  /** The loop over the parts. */
  method HandOut(order: seq<Cpu>, parts: nat, partCpu: array<nat>, cpuCpu: array<nat>)
    requires 0 < parts <= |order| && DistinctIds(order) && IdsBelow(order, cpuCpu.Length)
    requires parts <= partCpu.Length && partCpu != cpuCpu
    modifies partCpu, cpuCpu
    ensures HandedOut(order, parts, parts, partCpu[..], cpuCpu[..])
    ensures partCpu[parts..] == old(partCpu[parts..]) && Untouched(order, 0, |order|, old(cpuCpu[..]), cpuCpu[..])
  {
    hide HandedOut, DistinctIds, Start, Untouched;
    ghost var n := |order|;
    var perPart, rest := |order| / parts, |order| % parts;
    var cur: nat := 0;
    HandOutStart(order, parts, partCpu[..], cpuCpu[..]);
    for i := 0 to parts
      invariant cur == Start(n, parts, i) && rest == (if i < n % parts then n % parts - i else 0)
      invariant HandedOut(order, parts, i, partCpu[..], cpuCpu[..])
      invariant partCpu[parts..] == old(partCpu[parts..]) && Untouched(order, 0, n, old(cpuCpu[..]), cpuCpu[..])
    {
      var spend := perPart;
      if rest > 0 {
        spend, rest := spend + 1, rest - 1;
      }
      ghost var before, parts0 := cpuCpu[..], partCpu[..];
      PartBounds(n, parts, i);
      partCpu[i] := order[cur].id;
      FillPart(order, cur, cur + spend, order[cur].id, cpuCpu);
      FilledOnly(order, cur, cur + spend, old(cpuCpu[..]), before, cpuCpu[..]);
      HandOutNext(order, parts, i, parts0, before, cpuCpu[..]);
      assert partCpu[..] == parts0[i := order[cur].id];
      cur := cur + spend;
    }
  }

  lemma {:induction false} HandOutStart(order: seq<Cpu>, parts: nat, partCpu: seq<nat>, cpuCpu: seq<nat>)
    requires 0 < parts <= |order| && IdsBelow(order, |cpuCpu|)
    ensures Start(|order|, parts, 0) == 0 && HandedOut(order, parts, 0, partCpu, cpuCpu)
    ensures Untouched(order, 0, |order|, cpuCpu, cpuCpu)
  {}

  /** What one part changes is nothing to the parts before it and to other CPUs. */
  lemma {:induction false} FilledOnly(order: seq<Cpu>, from: nat, to: nat, first: seq<nat>, before: seq<nat>, after: seq<nat>)
    requires from <= to <= |order| && DistinctIds(order) && IdsBelow(order, |before|)
    requires Untouched(order, from, to, before, after) && Untouched(order, 0, |order|, first, before)
    ensures forall j :: 0 <= j < from ==> after[order[j].id] == before[order[j].id]
    ensures Untouched(order, 0, |order|, first, after)
  {}

  /**
   The CPUs are sorted by place; parts are stretches of neighbours whose sizes differ by at most
   one (PartsAreBalanced); part i is led by its first CPU and every CPU by the leader of its part.
   */
  method Divide(cpus: seq<Cpu>, capacity: nat, wanted: nat, partCpu: array<nat>, cpuCpu: array<nat>)
    returns (n: nat, parts: nat, ghost order: seq<Cpu>)
    requires 0 < |cpus| <= capacity && wanted > 0 && DistinctIds(cpus) && IdsBelow(cpus, cpuCpu.Length)
    requires Min(wanted, |cpus|) <= partCpu.Length && partCpu != cpuCpu
    modifies partCpu, cpuCpu
    ensures n == |cpus| && parts == Min(wanted, n)
    ensures |order| == n && multiset(order) == multiset(cpus) && Sorted(CmpCpus, order)
    ensures DistinctIds(order) && IdsBelow(order, cpuCpu.Length)
    ensures Start(n, parts, parts) == n
    ensures forall i :: 0 <= i < parts ==> Start(n, parts, i) < n && partCpu[i] == order[Start(n, parts, i)].id
    ensures Led(order, cpuCpu[..], parts, n)
    ensures forall i :: 0 <= i < parts ==> partCpu[i] < cpuCpu.Length && cpuCpu[partCpu[i]] == partCpu[i]
    ensures partCpu[parts..] == old(partCpu[parts..]) && Untouched(order, 0, n, old(cpuCpu[..]), cpuCpu[..])
  {
    hide DistinctIds, HandedOut, Led, Start, CmpCpus, TotalPreorder, Sorted, Untouched;
    var local := new Cpu[capacity];
    var count := 0;
    while count < |cpus|
      invariant count <= |cpus| && local[..count] == cpus[..count]
      modifies local
    {
      local[count] := cpus[count];
      count := count + 1;
    }
    assert cpus[..count] == cpus;
    parts := if count < wanted then count else wanted;
    n := count;
    CmpIsTotal();
    Sort(CmpCpus, local, n);
    order := local[..n];
    SortedIds(cpus, order, cpuCpu.Length);
    assert cpuCpu[..] == old(cpuCpu[..]);
    HandOut(local[..n], parts, partCpu, cpuCpu);
    AllHandedOut(order, parts, partCpu[..], cpuCpu[..]);
  }
}
