/**
 RegionManager (nre/include/region/RegionManager.h): free units of a resource as a list of
 regions. Words have 32 bits; ranges do not wrap around the address space.
 */
module Regions {
  import opened Bits

  datatype Region = Region(addr: nat, size: nat)

  function End(r: Region): nat { r.addr + r.size }

  predicate Inside(u: int, r: Region) { r.addr <= u < r.addr + r.size }

  /** Unit `u` is free. */
  ghost predicate IsFree(regs: seq<Region>, u: int) {
    exists i :: 0 <= i < |regs| && Inside(u, regs[i])
  }

  /** Neither overlapping nor adjacent. */
  predicate Apart(a: Region, b: Region) {
    End(a) < b.addr || End(b) < a.addr
  }

  /** Regions are non-empty, disjoint, and adjacent ones are merged. */
  predicate Merged(regs: seq<Region>) {
    && (forall i :: 0 <= i < |regs| ==> regs[i].size > 0 && End(regs[i]) < WORD)
    && (forall i, j :: 0 <= i < |regs| && 0 <= j < |regs| && i != j ==> Apart(regs[i], regs[j]))
  }

  function Total(regs: seq<Region>): nat {
    if regs == [] then 0 else regs[0].size + Total(regs[1..])
  }

  // ---------------------------------------------------------------- a merged list is canonical

  /** The units next to a region are not free. */
  lemma {:induction false} EdgesNotFree(regs: seq<Region>, i: nat)
    requires Merged(regs) && i < |regs|
    ensures !IsFree(regs, regs[i].addr - 1) && !IsFree(regs, End(regs[i]))
  {
    assert forall j :: 0 <= j < |regs| ==> i == j || Apart(regs[i], regs[j]);
  }

  lemma {:induction false} SameRegion(regs: seq<Region>, regs': seq<Region>, r: Region)
    requires Merged(regs) && Merged(regs') && r in regs
    requires forall u :: IsFree(regs, u) <==> IsFree(regs', u)
    ensures r in regs'
  {
    var i :| 0 <= i < |regs| && regs[i] == r;
    assert Inside(r.addr, regs[i]) && IsFree(regs, r.addr);
    var j :| 0 <= j < |regs'| && Inside(r.addr, regs'[j]);
    var q := regs'[j];
    EdgesNotFree(regs, i);
    EdgesNotFree(regs', j);
    assert Inside(r.addr - 1, q) ==> IsFree(regs', r.addr - 1);
    assert Inside(End(q), r) ==> IsFree(regs, End(q));
    assert Inside(End(r), q) ==> IsFree(regs', End(r));
    assert q == r;
  }

  /** A merged list is determined, up to order, by its set of free units. */
  lemma {:induction false} MergedIsCanonical(regs: seq<Region>, regs': seq<Region>)
    requires Merged(regs) && Merged(regs')
    requires forall u :: IsFree(regs, u) <==> IsFree(regs', u)
    ensures (set r | r in regs) == (set r | r in regs')
  {
    forall r | r in regs ensures r in regs' { SameRegion(regs, regs', r); }
    forall r | r in regs' ensures r in regs { SameRegion(regs', regs, r); }
  }

  // ---------------------------------------------------------------- list updates

  function Without(regs: seq<Region>, i: nat): seq<Region>
    requires i < |regs|
  {
    regs[..i] + regs[i + 1..]
  }

  lemma {:induction false} TotalAppend(a: seq<Region>, b: seq<Region>)
    ensures Total(a + b) == Total(a) + Total(b)
  {
    if a == [] {
      assert a + b == b;
    } else {
      assert (a + b)[1..] == a[1..] + b;
      TotalAppend(a[1..], b);
    }
  }

  lemma {:induction false} TotalUpdate(regs: seq<Region>, i: nat, r: Region)
    requires i < |regs|
    ensures Total(regs[i := r]) == Total(regs) - regs[i].size + r.size
    ensures Total(Without(regs, i)) == Total(regs) - regs[i].size
    ensures Total(regs + [r]) == Total(regs) + r.size
  {
    assert regs == regs[..i] + ([regs[i]] + regs[i + 1..]);
    assert regs[i := r] == regs[..i] + ([r] + regs[i + 1..]);
    TotalAppend(regs[..i], [regs[i]] + regs[i + 1..]);
    TotalAppend(regs[..i], [r] + regs[i + 1..]);
    TotalAppend(regs[..i], regs[i + 1..]);
    TotalAppend(regs, [r]);
  }

  predicate Overlapped(b1: nat, s1: nat, b2: nat, s2: nat) {
    || (b1 >= b2 && b1 < b2 + s2)
    || (b1 + s1 > b2 && b1 + s1 <= b2 + s2)
    || (b1 < b2 && b1 + s1 > b2 + s2)
  }

  /** The region test finds exactly the ranges that share a unit. */
  lemma {:induction false} OverlappedIsSharing(b1: nat, s1: nat, b2: nat, s2: nat)
    requires s1 > 0 && s2 > 0
    ensures Overlapped(b1, s1, b2, s2) <==> exists u :: Inside(u, Region(b1, s1)) && Inside(u, Region(b2, s2))
  {
    if Overlapped(b1, s1, b2, s2) {
      var u := if b1 >= b2 then b1 else b2;
      assert Inside(u, Region(b1, s1)) && Inside(u, Region(b2, s2));
    }
  }

  // ---------------------------------------------------------------- strict alloc_at

  /** remove_from, for a range that overlaps region `i`. */
  function CutOut(regs: seq<Region>, i: nat, start: nat, count: nat): seq<Region>
    requires i < |regs| && Overlapped(start, count, regs[i].addr, regs[i].size)
  {
    var r := regs[i];
    if start <= r.addr && start + count >= End(r) then Without(regs, i)
    else if start <= r.addr then regs[i := Region(start + count, r.size - (start + count - r.addr))]
    else if start + count >= End(r) then regs[i := Region(r.addr, start - r.addr)]
    else regs[i := Region(r.addr, start - r.addr)] + [Region(start + count, End(r) - (start + count))]
  }

  ghost predicate RangeTaken(regs: seq<Region>, regs': seq<Region>, start: nat, count: nat) {
    && Merged(regs') && Total(regs') == Total(regs) - count
    && forall u :: IsFree(regs', u) <==> IsFree(regs, u) && !Inside(u, Region(start, count))
  }

  function Max(a: nat, b: nat): nat { if a > b then a else b }

  /** Cutting a range out of a region takes exactly the units they share and keeps the list merged. */
  lemma {:induction false} CutOutRegions(regs: seq<Region>, i: nat, start: nat, count: nat)
    requires Merged(regs) && i < |regs| && count > 0 && Overlapped(start, count, regs[i].addr, regs[i].size)
    ensures var from, to := Max(start, regs[i].addr), Min(start + count, End(regs[i]));
            from < to && RangeTaken(regs, CutOut(regs, i, start, count), from, to - from)
  {
    hide RangeTaken, Merged, Without;
    RegionInWord(regs, i);
    var r := regs[i];
    var from, to := Max(start, r.addr), Min(start + count, End(r));
    var left, right := Region(r.addr, from - r.addr), Region(to, End(r) - to);
    if left.size == 0 && right.size == 0 {
      CutWhole(regs, i);
    } else if left.size == 0 {
      CutSide(regs, i, right, from, to - from);
    } else if right.size == 0 {
      CutSide(regs, i, left, from, to - from);
    } else {
      CutMiddle(regs, i, left, right);
    }
  }

  lemma {:induction false} CutWhole(regs: seq<Region>, i: nat)
    requires Merged(regs) && i < |regs|
    ensures RangeTaken(regs, Without(regs, i), regs[i].addr, regs[i].size)
  {
    hide Total, IsFree, FreeElsewhere, Merged;
    OthersElsewhere(regs, i);
    TotalUpdate(regs, i, regs[i]);
    WithoutRegion(regs, i);
  }

  lemma {:induction false} CutSide(regs: seq<Region>, i: nat, rest: Region, start: nat, count: nat)
    requires Merged(regs) && i < |regs| && rest.size > 0 && rest.size + count == regs[i].size
    requires (rest.addr == regs[i].addr && start == End(rest)) || (start == regs[i].addr && rest.addr == start + count)
    ensures RangeTaken(regs, regs[i := rest], start, count)
  {
    hide Total, IsFree, FreeElsewhere, Merged;
    OthersElsewhere(regs, i);
    TotalUpdate(regs, i, rest);
    ShrinkRegion(regs, i, rest);
    assert forall u :: Inside(u, rest) <==> Inside(u, regs[i]) && !Inside(u, Region(start, count));
  }

  /** A range taken from the middle leaves two pieces, in whichever order they are listed. */
  lemma {:induction false} CutMiddle(regs: seq<Region>, i: nat, left: Region, right: Region)
    requires Merged(regs) && i < |regs| && left.size > 0 && right.size > 0 && End(left) < right.addr
    requires regs[i].addr == left.addr && End(right) == End(regs[i])
    ensures RangeTaken(regs, regs[i := left] + [right], End(left), right.addr - End(left))
    ensures RangeTaken(regs, regs[i := right] + [left], End(left), right.addr - End(left))
  {
    hide RangeTaken;
    CutInTwo(regs, i, left, right, End(left), right.addr - End(left));
    CutInTwo(regs, i, right, left, End(left), right.addr - End(left));
  }

  lemma {:induction false} CutInTwo(regs: seq<Region>, i: nat, kept: Region, added: Region, start: nat, count: nat)
    requires Merged(regs) && i < |regs| && kept.size > 0 && added.size > 0 && Apart(kept, added)
    requires kept.size + count + added.size == regs[i].size && regs[i].addr <= start && start + count <= End(regs[i])
    requires forall u :: Inside(u, kept) || Inside(u, added) <==> Inside(u, regs[i]) && !Inside(u, Region(start, count))
    requires regs[i].addr <= kept.addr && End(kept) <= End(regs[i]) && regs[i].addr <= added.addr && End(added) <= End(regs[i])
    ensures RangeTaken(regs, regs[i := kept] + [added], start, count)
  {
    var cut := regs[i := kept];
    forall j | 0 <= j < |cut| ensures Apart(cut[j], added) { assert j == i || Apart(regs[j], regs[i]); }
    assert End(added) < WORD;
    hide Total, IsFree, FreeElsewhere, Merged;
    OthersElsewhere(regs, i);
    TotalUpdate(regs, i, kept);
    ShrinkRegion(regs, i, kept);
    TotalUpdate(cut, i, added);
    AppendRegion(cut, added);
  }

  /** `u` lies in a region other than number `i`. */
  ghost predicate FreeElsewhere(regs: seq<Region>, i: int, u: int) {
    exists j :: 0 <= j < |regs| && j != i && Inside(u, regs[j])
  }

  lemma {:induction false} OthersElsewhere(regs: seq<Region>, i: nat)
    requires Merged(regs) && i < |regs|
    ensures forall u :: IsFree(regs, u) <==> Inside(u, regs[i]) || FreeElsewhere(regs, i, u)
    ensures forall u :: FreeElsewhere(regs, i, u) ==> u < regs[i].addr - 1 || End(regs[i]) < u
  {
    forall u | FreeElsewhere(regs, i, u) ensures u < regs[i].addr - 1 || End(regs[i]) < u {
      var j :| 0 <= j < |regs| && j != i && Inside(u, regs[j]);
      assert Apart(regs[i], regs[j]);
    }
  }

  lemma {:induction false} WithoutRegion(regs: seq<Region>, i: nat)
    requires Merged(regs) && i < |regs|
    ensures Merged(Without(regs, i))
    ensures forall u :: IsFree(Without(regs, i), u) <==> FreeElsewhere(regs, i, u)
  {
    WithoutMerged(regs, i);
    hide Merged;
    var regs' := Without(regs, i);
    forall u | FreeElsewhere(regs, i, u) ensures IsFree(regs', u) {
      var j :| 0 <= j < |regs| && j != i && Inside(u, regs[j]);
      assert regs'[if j < i then j else j - 1] == regs[j];
    }
    forall u | IsFree(regs', u) ensures FreeElsewhere(regs, i, u) {
      var k :| 0 <= k < |regs'| && Inside(u, regs'[k]);
      assert regs[if k < i then k else k + 1] == regs'[k];
    }
  }

  lemma {:induction false} WithoutMerged(regs: seq<Region>, i: nat)
    requires Merged(regs) && i < |regs|
    ensures Merged(Without(regs, i))
  {
    var regs' := Without(regs, i);
    assert forall k :: 0 <= k < |regs'| ==> regs'[k] == regs[if k < i then k else k + 1];
    hide Without, Apart;
  }

  lemma {:induction false} ReplaceRegion(regs: seq<Region>, i: nat, r: Region)
    requires Merged(regs) && i < |regs| && r.size > 0 && End(r) < WORD
    requires forall j :: 0 <= j < |regs| && j != i ==> Apart(regs[j], r)
    ensures Merged(regs[i := r])
    ensures forall u :: IsFree(regs[i := r], u) <==> Inside(u, r) || FreeElsewhere(regs, i, u)
  {
    var regs' := regs[i := r];
    forall u | FreeElsewhere(regs, i, u) ensures IsFree(regs', u) {
      var j :| 0 <= j < |regs| && j != i && Inside(u, regs[j]);
      assert Inside(u, regs'[j]);
    }
    forall u | Inside(u, r) ensures IsFree(regs', u) { assert Inside(u, regs'[i]); }
  }

  lemma {:induction false} ShrinkRegion(regs: seq<Region>, i: nat, r: Region)
    requires Merged(regs) && i < |regs| && r.size > 0 && regs[i].addr <= r.addr && End(r) <= End(regs[i])
    ensures Merged(regs[i := r])
    ensures forall u :: IsFree(regs[i := r], u) <==> Inside(u, r) || FreeElsewhere(regs, i, u)
  {
    forall j | 0 <= j < |regs| && j != i ensures Apart(regs[j], r) { assert Apart(regs[j], regs[i]); }
    assert End(regs[i]) < WORD;
    hide Merged, IsFree, FreeElsewhere;
    ReplaceRegion(regs, i, r);
  }

  lemma {:induction false} AppendRegion(regs: seq<Region>, r: Region)
    requires Merged(regs) && r.size > 0 && End(r) < WORD && forall i :: 0 <= i < |regs| ==> Apart(regs[i], r)
    ensures Merged(regs + [r])
    ensures forall u :: IsFree(regs + [r], u) <==> IsFree(regs, u) || Inside(u, r)
  {
    var regs' := regs + [r];
    forall u | IsFree(regs, u) ensures IsFree(regs', u) {
      var j :| 0 <= j < |regs| && Inside(u, regs[j]);
      assert Inside(u, regs'[j]);
    }
    forall u | Inside(u, r) ensures IsFree(regs', u) { assert Inside(u, regs'[|regs|]); }
  }

  /** In a merged list a range of free units lies within one region. */
  lemma {:induction false} FreeRangeInOneRegion(regs: seq<Region>, i: nat, start: nat, count: nat)
    requires Merged(regs) && i < |regs| && count > 0 && Overlapped(start, count, regs[i].addr, regs[i].size)
    ensures (forall u :: Inside(u, Region(start, count)) ==> IsFree(regs, u))
            <==> regs[i].addr <= start && start + count <= End(regs[i])
  {
    var r, q := regs[i], Region(start, count);
    if r.addr <= start && start + count <= End(r) {
      forall u | Inside(u, q) ensures IsFree(regs, u) { assert Inside(u, regs[i]); }
    } else {
      EdgesNotFree(regs, i);
      assert Inside(r.addr - 1, q) || Inside(End(r), q);
    }
  }

  /** At the first overlapping region it is decided whether all of the range is free. */
  lemma {:induction false} StrictCut(regs: seq<Region>, i: nat, start: nat, count: nat)
    requires Merged(regs) && i < |regs| && count > 0 && Overlapped(start, count, regs[i].addr, regs[i].size)
    ensures !NoneFree(regs, start, count)
    ensures (forall u :: Inside(u, Region(start, count)) ==> IsFree(regs, u))
            <==> regs[i].addr <= start && start + count <= End(regs[i])
    ensures regs[i].addr <= start && start + count <= End(regs[i]) ==>
              var regs' := CutOut(regs, i, start, count); RangeTaken(regs, regs', start, count) && Merged(regs')
  {
    hide Merged, CutOut, IsFree, RangeTaken, NoneFree, Overlapped, Inside;
    RegionInWord(regs, i);
    FreeRangeInOneRegion(regs, i, start, count);
    SomeFree(regs, i, start, count);
    CutOutRegions(regs, i, start, count);
    if regs[i].addr <= start && start + count <= End(regs[i]) {
      TakenIsMerged(regs, CutOut(regs, i, start, count), start, count);
    }
  }

  lemma {:induction false} SomeFree(regs: seq<Region>, i: nat, start: nat, count: nat)
    requires i < |regs| && count > 0 && regs[i].size > 0 && Overlapped(start, count, regs[i].addr, regs[i].size)
    ensures !NoneFree(regs, start, count)
  {
    OverlappedIsSharing(start, count, regs[i].addr, regs[i].size);
    hide Overlapped;
    var v :| Inside(v, Region(start, count)) && Inside(v, regs[i]);
    assert IsFree(regs, v);
  }

  lemma {:induction false} NothingOverlapped(regs: seq<Region>, start: nat, count: nat)
    requires Merged(regs) && count > 0
    requires forall j :: 0 <= j < |regs| ==> !Overlapped(start, count, regs[j].addr, regs[j].size)
    ensures NoneFree(regs, start, count) && !(forall u :: Inside(u, Region(start, count)) ==> IsFree(regs, u))
  {
    forall u | Inside(u, Region(start, count)) ensures !IsFree(regs, u) {
      forall j | 0 <= j < |regs| ensures !Inside(u, regs[j]) {
        OverlappedIsSharing(start, count, regs[j].addr, regs[j].size);
      }
    }
    assert Inside(start, Region(start, count));
  }

  // ---------------------------------------------------------------- free

  ghost predicate RangeGiven(regs: seq<Region>, regs': seq<Region>, start: nat, count: nat) {
    && Merged(regs') && Total(regs') == Total(regs) + count
    && forall u :: IsFree(regs', u) <==> IsFree(regs, u) || Inside(u, Region(start, count))
  }

  /** Region `p` ends where the range starts; -1: there is none. */
  predicate EndsAt(regs: seq<Region>, p: int, start: nat) {
    -1 <= p < |regs|
    && (if p >= 0 then End(regs[p]) == start else forall k :: 0 <= k < |regs| ==> End(regs[k]) != start)
  }

  predicate StartsAt(regs: seq<Region>, n: int, end: nat) {
    -1 <= n < |regs|
    && (if n >= 0 then regs[n].addr == end else forall k :: 0 <= k < |regs| ==> regs[k].addr != end)
  }

  /** The four cases of free(): join both neighbours, one of them, or add a region. */
  function FreeAfter(regs: seq<Region>, start: nat, count: nat, p: int, n: int): seq<Region>
    requires -1 <= p < |regs| && -1 <= n < |regs|
  {
    if n >= 0 && p >= 0 then Without(regs[p := Region(regs[p].addr, regs[p].size + count + regs[n].size)], n)
    else if n >= 0 then regs[n := Region(start, regs[n].size + count)]
    else if p >= 0 then regs[p := Region(regs[p].addr, regs[p].size + count)]
    else regs + [Region(start, count)]
  }

  ghost predicate NoneFree(regs: seq<Region>, start: nat, count: nat) {
    forall u :: Inside(u, Region(start, count)) ==> !IsFree(regs, u)
  }

  lemma {:induction false} FarFromOthers(regs: seq<Region>, start: nat, count: nat, p: int, n: int, j: nat)
    requires Merged(regs) && count > 0 && NoneFree(regs, start, count) && EndsAt(regs, p, start) && StartsAt(regs, n, start + count)
    requires j < |regs| && j != p && j != n
    ensures Apart(regs[j], Region(start, count))
  {
    var r, q := regs[j], Region(start, count);
    assert p >= 0 ==> Apart(regs[p], r);
    assert n >= 0 ==> Apart(regs[n], r);
    assert Inside(start, q) && (Inside(start, regs[j]) ==> IsFree(regs, start));
    assert Inside(r.addr, regs[j]) && IsFree(regs, r.addr);
  }

  /** free() gives back exactly the range and keeps the list merged. */
  lemma {:induction false} FreeRegions(regs: seq<Region>, start: nat, count: nat, p: int, n: int)
    requires Merged(regs) && count > 0 && start + count < WORD && NoneFree(regs, start, count)
    requires EndsAt(regs, p, start) && StartsAt(regs, n, start + count)
    ensures RangeGiven(regs, FreeAfter(regs, start, count, p, n), start, count)
  {
    forall j | 0 <= j < |regs| && j != p && j != n ensures Apart(regs[j], Region(start, count)) {
      FarFromOthers(regs, start, count, p, n, j);
    }
    if n >= 0 && p >= 0 {
      JoinBoth(regs, start, count, p, n);
    } else if n >= 0 {
      JoinOne(regs, n, Region(start, regs[n].size + count), start, count);
    } else if p >= 0 {
      JoinOne(regs, p, Region(regs[p].addr, regs[p].size + count), start, count);
    } else {
      var q := Region(start, count);
      hide IsFree, Merged, Total;
      AppendRegion(regs, q);
      TotalAppend(regs, [q]);
      TotalOne(q);
    }
  }

  lemma {:induction false} TotalOne(r: Region)
    ensures Total([r]) == r.size
  {
    assert [r][1..] == [];
  }

  /** Growing region `i` by the adjacent range. */
  lemma {:induction false} JoinOne(regs: seq<Region>, i: nat, r: Region, start: nat, count: nat)
    requires Merged(regs) && i < |regs| && count > 0 && start + count < WORD
    requires forall j :: 0 <= j < |regs| && j != i ==> Apart(regs[j], Region(start, count))
    requires (r == Region(start, regs[i].size + count) && regs[i].addr == start + count)
             || (r == Region(regs[i].addr, regs[i].size + count) && End(regs[i]) == start)
    ensures RangeGiven(regs, regs[i := r], start, count)
  {
    forall j | 0 <= j < |regs| && j != i ensures Apart(regs[j], r) { assert Apart(regs[j], regs[i]); }
    assert End(r) < WORD;
    assert forall u :: Inside(u, r) <==> Inside(u, regs[i]) || Inside(u, Region(start, count));
    hide IsFree, FreeElsewhere, Merged, Total;
    OthersElsewhere(regs, i);
    ReplaceRegion(regs, i, r);
    TotalUpdate(regs, i, r);
  }

  /** Joining both neighbours is joining the lower one, then absorbing the upper one. */
  lemma {:induction false} JoinBoth(regs: seq<Region>, start: nat, count: nat, p: nat, n: nat)
    requires Merged(regs) && count > 0 && start + count < WORD && p < |regs| && n < |regs|
    requires End(regs[p]) == start && regs[n].addr == start + count
    requires forall j :: 0 <= j < |regs| && j != p && j != n ==> Apart(regs[j], Region(start, count))
    ensures RangeGiven(regs, FreeAfter(regs, start, count, p, n), start, count)
  {
    assert p != n && Apart(regs[p], regs[n]);
    var rest := Without(regs, n);
    var k := if p < n then p else p - 1;
    var r := Region(regs[p].addr, regs[p].size + count + regs[n].size);
    assert FreeAfter(regs, start, count, p, n) == rest[k := r] && rest[k] == regs[p];
    assert End(r) == End(regs[n]) < WORD;
    forall j | 0 <= j < |rest| && j != k ensures Apart(rest[j], r) {
      var i := if j < n then j else j + 1;
      assert rest[j] == regs[i] && i != p && Apart(regs[i], regs[p]) && Apart(regs[i], regs[n]);
    }
    JoinBothUnits(regs, rest, start, count, p, n, k, r);
  }

  lemma {:induction false} JoinBothUnits(regs: seq<Region>, rest: seq<Region>, start: nat, count: nat, p: nat, n: nat, k: nat, r: Region)
    requires Merged(regs) && p < |regs| && n < |regs| && p != n && rest == Without(regs, n)
    requires k < |rest| && rest[k] == regs[p] && r == Region(regs[p].addr, regs[p].size + count + regs[n].size)
    requires End(regs[p]) == start && regs[n].addr == start + count && r.size > 0 && End(r) < WORD
    requires forall j :: 0 <= j < |rest| && j != k ==> Apart(rest[j], r)
    ensures RangeGiven(regs, rest[k := r], start, count)
  {
    assert forall u :: Inside(u, r) <==> Inside(u, regs[p]) || Inside(u, Region(start, count)) || Inside(u, regs[n]);
    hide IsFree, FreeElsewhere, Merged, Total;
    OthersElsewhere(regs, n);
    WithoutRegion(regs, n);
    OthersElsewhere(rest, k);
    ReplaceRegion(rest, k, r);
    TotalUpdate(regs, n, r);
    TotalUpdate(rest, k, r);
  }

  // ---------------------------------------------------------------- alloc

  /** (x + align - 1) & ~(align - 1), on words. */
  function RoundUp(x: nat, align: nat): nat
    requires 0 < align < WORD
  {
    And(Word(x + align - 1), WORD - align)
  }

  lemma {:induction false} MaskIs(y: nat, align: nat)
    requires 0 < align < WORD && IsPow2(align) && y < WORD
    ensures align <= WORD / 2 && And(y, WORD - align) == y - y % align
  {
    var k := BitScanReverse(align);
    IsPow2Exactly(align);
    Pow2Of31();
    Pow2Of32();
    hide *;
    if k > 31 { Pow2Monotone(32, k); } else { Pow2Monotone(k, 31); }
    AndHigh(y, 32, k);
    LowIsRemainder(y, k);
  }

  /** The mask rounds up to a multiple of a power of two, or to 0 past the last one. */
  lemma {:induction false} RoundUpIs(x: nat, align: nat)
    requires 0 < align < WORD && IsPow2(align) && x < WORD
    ensures align <= WORD / 2 && RoundUp(x, align) % align == 0
    ensures x + align <= WORD ==> x <= RoundUp(x, align) < x + align
    ensures x + align > WORD ==> RoundUp(x, align) == 0
  {
    hide And, IsPow2, Word;
    var y := Word(x + align - 1);
    WordIs(x + align - 1);
    MaskIs(y, align);
    MultipleBelow(y, align);
    if x + align > WORD { DivModUnique(y, align, 0, y); }
  }

  lemma {:induction false} MultipleBelow(y: nat, d: nat)
    requires d > 0
    ensures y % d < d && y % d <= y && (y - y % d) % d == 0
  {
    var q := y / d;
    assert y - y % d == q * d;
    DivModUnique(q * d, d, q, 0);
  }

  /** start - addr: the units lost to alignment. */
  function Gap(r: Region, align: nat): nat
    requires 0 < align < WORD
  {
    Word(RoundUp(r.addr, align) - r.addr)
  }

  lemma {:induction false} GapIs(r: Region, align: nat)
    requires 0 < align < WORD && IsPow2(align) && r.addr < WORD
    ensures r.addr + align <= WORD ==> RoundUp(r.addr, align) == r.addr + Gap(r, align) && Gap(r, align) < align
    ensures r.addr + align > WORD ==> RoundUp(r.addr, align) == 0 && Gap(r, align) == WORD - r.addr && r.addr > WORD / 2
    ensures RoundUp(r.addr, align) % align == 0
  {
    hide RoundUp, IsPow2, Word;
    RoundUpIs(r.addr, align);
    WordIs(RoundUp(r.addr, align) - r.addr);
  }

  /** The test of get(), with its unsigned subtraction. */
  predicate Suitable(r: Region, count: nat, align: nat)
    requires 0 < align < WORD
  {
    r.size >= count && Word(r.size - Gap(r, align)) >= count
  }

  /** What is left of the region behind the range, on words. */
  function Rest(r: Region, count: nat, align: nat): Region
    requires 0 < align < WORD
  {
    var taken := Word(count + RoundUp(r.addr, align) - r.addr);
    Region(Word(r.addr + taken), Word(r.size - taken))
  }

  /** What alloc() makes of the list when get() delivers region `i`. */
  function Carve(regs: seq<Region>, i: nat, count: nat, align: nat): seq<Region>
    requires i < |regs| && 0 < align < WORD
  {
    var r := regs[i];
    var start, rest := RoundUp(r.addr, align), Rest(r, count, align);
    if start > r.addr then
      var left := Region(r.addr, start - r.addr);
      if rest.size > 0 then regs[i := rest] + [left] else regs[i := left]
    else if rest.size == 0 then Without(regs, i)
    else regs[i := rest]
  }

  predicate Allocatable(regs: seq<Region>, i: nat, count: nat, align: nat) {
    && Merged(regs) && i < |regs| && count > 0 && 0 < align < WORD && IsPow2(align)
    && Suitable(regs[i], count, align)
  }

  lemma {:induction false} RegionInWord(regs: seq<Region>, i: nat)
    requires Merged(regs) && i < |regs|
    ensures 0 < regs[i].size && End(regs[i]) < WORD
  {}

  /** Without wrap-around the rest is what lies behind the range. */
  lemma {:induction false} RestIs(r: Region, count: nat, align: nat)
    requires 0 < align < WORD && IsPow2(align) && End(r) < WORD && Suitable(r, count, align) && Gap(r, align) <= r.size
    ensures var gap := Gap(r, align);
            && gap + count <= r.size && RoundUp(r.addr, align) == r.addr + gap
            && Rest(r, count, align) == Region(r.addr + gap + count, r.size - gap - count)
  {
    hide Gap, RoundUp, IsPow2, Word;
    var gap := Gap(r, align);
    GapIs(r, align);
    WordIs(r.size - gap);
    WordIs(count + gap);
    WordIs(r.addr + gap + count);
    WordIs(r.size - (count + gap));
  }

  /** Past the last multiple the start is 0, and the rest begins behind `count` units from there. */
  lemma {:induction false} RestWraps(r: Region, count: nat, align: nat)
    requires 0 < align < WORD && IsPow2(align) && 0 < r.size && End(r) < WORD && r.addr + align > WORD
    requires Suitable(r, count, align)
    ensures count <= r.size < r.addr && RoundUp(r.addr, align) == 0
    ensures Rest(r, count, align) == Region(count, End(r) - count)
  {
    hide Gap, RoundUp, IsPow2, Word;
    GapIs(r, align);
    WordIs(count - r.addr);
    WordIs(WORD + count);
    WordIs(r.size - (WORD + count - r.addr));
  }

  lemma {:induction false} CarveIs(regs: seq<Region>, i: nat, count: nat, align: nat)
    requires Allocatable(regs, i, count, align) && Gap(regs[i], align) <= regs[i].size
    ensures var r := regs[i];
            var gap := Gap(r, align);
            && gap + count <= r.size && RoundUp(r.addr, align) == r.addr + gap
            && var left, right := Region(r.addr, gap), Region(r.addr + gap + count, r.size - gap - count);
               Carve(regs, i, count, align)
               == if gap == 0 then (if right.size == 0 then Without(regs, i) else regs[i := right])
                  else if right.size > 0 then regs[i := right] + [left]
                  else regs[i := left]
  {
    hide Merged, Gap, RoundUp, Rest, Suitable, Without, IsPow2;
    RegionInWord(regs, i);
    RestIs(regs[i], count, align);
  }

  /** If the region is at least as large as its alignment gap, alloc() takes exactly the range. */
  lemma {:induction false} CarveTakes(regs: seq<Region>, i: nat, count: nat, align: nat)
    requires Allocatable(regs, i, count, align) && Gap(regs[i], align) <= regs[i].size
    ensures RangeTaken(regs, Carve(regs, i, count, align), RoundUp(regs[i].addr, align), count)
    ensures regs[i].addr <= RoundUp(regs[i].addr, align) && RoundUp(regs[i].addr, align) + count <= End(regs[i])
  {
    hide RangeTaken, Merged, Gap, RoundUp, Carve, IsPow2, Without;
    CarveIs(regs, i, count, align);
    CutGap(regs, i, Gap(regs[i], align), count);
  }

  lemma {:induction false} CutGap(regs: seq<Region>, i: nat, gap: nat, count: nat)
    requires Merged(regs) && i < |regs| && count > 0 && gap + count <= regs[i].size
    ensures var r := regs[i];
            var left, right := Region(r.addr, gap), Region(r.addr + gap + count, r.size - gap - count);
            RangeTaken(regs, if gap == 0 then (if right.size == 0 then Without(regs, i) else regs[i := right])
                             else if right.size > 0 then regs[i := right] + [left]
                             else regs[i := left], r.addr + gap, count)
  {
    hide RangeTaken, Merged, Without;
    var r := regs[i];
    var left, right := Region(r.addr, gap), Region(r.addr + gap + count, r.size - gap - count);
    if gap == 0 && right.size == 0 {
      CutWhole(regs, i);
    } else if gap == 0 {
      CutSide(regs, i, right, r.addr, count);
    } else if right.size == 0 {
      CutSide(regs, i, left, r.addr + gap, count);
    } else {
      CutMiddle(regs, i, left, right);
    }
  }

  /** The unit that becomes free when the gap is larger than the region. */
  function Strayed(r: Region, align: nat): int {
    if r.addr + align > WORD then r.addr - 1 else End(r)
  }

  /**
   Otherwise the subtraction in get() wraps, the region passes the test, and alloc() declares
   a unit next to the region free although it is not.
   */
  lemma {:induction false} CarveCorrupts(regs: seq<Region>, i: nat, count: nat, align: nat)
    requires Allocatable(regs, i, count, align) && Gap(regs[i], align) > regs[i].size
    ensures IsFree(Carve(regs, i, count, align), Strayed(regs[i], align)) && !IsFree(regs, Strayed(regs[i], align))
  {
    hide Merged, Gap, RoundUp, IsPow2, IsFree, Without, Suitable, Rest;
    var r, regs' := regs[i], Carve(regs, i, count, align);
    RegionInWord(regs, i);
    EdgesNotFree(regs, i);
    GapIs(r, align);
    if r.addr + align > WORD {
      RestWraps(r, count, align);
      FreeAt(regs', i, r.addr - 1);
    } else {
      FreeAt(regs', if |regs'| > |regs| then |regs| else i, End(r));
    }
  }

  lemma {:induction false} FreeAt(regs: seq<Region>, i: nat, u: int)
    requires i < |regs| && Inside(u, regs[i])
    ensures IsFree(regs, u)
  {}

  /** alloc() takes exactly an aligned free range iff the chosen region is no smaller than its gap. */
  lemma {:induction false} AllocExactly(regs: seq<Region>, i: nat, count: nat, align: nat)
    requires Allocatable(regs, i, count, align)
    ensures RangeTaken(regs, Carve(regs, i, count, align), RoundUp(regs[i].addr, align), count)
            <==> Gap(regs[i], align) <= regs[i].size
  {
    hide Carve, RoundUp, Gap, Strayed, IsPow2;
    if Gap(regs[i], align) <= regs[i].size { CarveTakes(regs, i, count, align); } else { CarveCorrupts(regs, i, count, align); }
  }

  /** Such a list exists: one unit at address 1, one unit wanted at alignment 16. */
  lemma {:induction false} AllocCanCorrupt()
    ensures var regs := [Region(1, 1)]; Allocatable(regs, 0, 1, 16) && Gap(regs[0], 16) > regs[0].size
  {
    assert Pow2(4) == 16 && BitScanReverse(16) == 4;
    IsPow2Exactly(16);
    RoundUpIs(1, 16);
    hide And, RoundUp, IsPow2;
    assert RoundUp(1, 16) == 16;
  }

  /** get(): the first region from `k` on that passes the test, -1 if there is none. */
  function FirstSuitable(regs: seq<Region>, k: nat, count: nat, align: nat): (i: int)
    requires k <= |regs| && 0 < align < WORD
    ensures -1 <= i < |regs| && (i >= 0 ==> k <= i && Suitable(regs[i], count, align))
    ensures forall j :: k <= j < (if i >= 0 then i else |regs|) ==> !Suitable(regs[j], count, align)
    decreases |regs| - k
  {
    if k == |regs| then -1
    else if Suitable(regs[k], count, align) then k
    else FirstSuitable(regs, k + 1, count, align)
  }

  /** Freeing what was allocated gives back the identical set of regions. */
  lemma {:induction false} AllocFreeRestores(regs: seq<Region>, regs1: seq<Region>, regs2: seq<Region>, start: nat, count: nat)
    requires Merged(regs) && RangeTaken(regs, regs1, start, count) && RangeGiven(regs1, regs2, start, count)
    requires forall u :: Inside(u, Region(start, count)) ==> IsFree(regs, u)
    ensures (set r | r in regs2) == (set r | r in regs) && Total(regs2) == Total(regs)
  {
    hide Merged, IsFree, Total;
    MergedIsCanonical(regs2, regs);
  }

  // ---------------------------------------------------------------- the order of the list

  predicate OneChanged(a: seq<Region>, b: seq<Region>, k: nat) {
    |a| == |b| && forall j :: 0 <= j < |a| && j != k ==> a[j] == b[j]
  }

  /** At most one region changes, in its place; a new one comes last, and one may be removed. */
  ghost predicate InPlace(regs: seq<Region>, regs': seq<Region>) {
    && |regs| - 1 <= |regs'| <= |regs| + 1
    && (|regs'| == |regs| + 1 ==> exists k :: OneChanged(regs, regs'[..|regs|], k))
    && (|regs'| == |regs| ==> exists k :: OneChanged(regs, regs', k))
    && (|regs'| == |regs| - 1 ==> exists n, k :: 0 <= n < |regs| && OneChanged(Without(regs, n), regs', k))
  }

  lemma {:induction false} ChangedInPlace(regs: seq<Region>, k: nat, r: Region)
    requires k < |regs|
    ensures InPlace(regs, regs[k := r])
  {
    assert OneChanged(regs, regs[k := r], k);
  }

  lemma {:induction false} AppendedInPlace(regs: seq<Region>, r: Region)
    ensures InPlace(regs, regs + [r])
  {
    assert (regs + [r])[..|regs|] == regs;
    assert OneChanged(regs, (regs + [r])[..|regs|], 0);
  }

  lemma {:induction false} JoinedInPlace(regs: seq<Region>, p: nat, n: nat, r: Region)
    requires p < |regs| && n < |regs| && p != n
    ensures InPlace(regs, Without(regs[p := r], n))
  {
    assert OneChanged(Without(regs, n), Without(regs[p := r], n), if p < n then p else p - 1);
  }

  lemma {:induction false} FreeInPlace(regs: seq<Region>, start: nat, count: nat, p: int, n: int)
    requires -1 <= p < |regs| && -1 <= n < |regs| && (p >= 0 ==> p != n)
    ensures InPlace(regs, FreeAfter(regs, start, count, p, n))
  {
    hide InPlace, Without;
    if n >= 0 && p >= 0 {
      JoinedInPlace(regs, p, n, Region(regs[p].addr, regs[p].size + count + regs[n].size));
    } else if n >= 0 {
      ChangedInPlace(regs, n, Region(start, regs[n].size + count));
    } else if p >= 0 {
      ChangedInPlace(regs, p, Region(regs[p].addr, regs[p].size + count));
    } else {
      AppendedInPlace(regs, Region(start, count));
    }
  }

  lemma {:induction false} CutInPlace(regs: seq<Region>, i: nat, start: nat, count: nat)
    requires i < |regs| && Overlapped(start, count, regs[i].addr, regs[i].size)
    ensures InPlace(regs, CutOut(regs, i, start, count))
  {
    hide Overlapped;
    var regs' := CutOut(regs, i, start, count);
    if |regs'| < |regs| {
      assert OneChanged(Without(regs, i), regs', 0);
    } else {
      assert OneChanged(regs, regs'[..|regs|], i) && regs'[..|regs'|] == regs';
    }
  }

  lemma {:induction false} CutKeepsOthers(regs: seq<Region>, i: nat, start: nat, count: nat)
    requires i < |regs| && Overlapped(start, count, regs[i].addr, regs[i].size)
    ensures |CutOut(regs, i, start, count)| > |regs| ==>
              forall j :: 0 <= j < |regs| ==> CutOut(regs, i, start, count)[j].addr == regs[j].addr
  {
    hide Overlapped;
  }

  lemma {:induction false} CarveInPlace(regs: seq<Region>, i: nat, count: nat, align: nat)
    requires i < |regs| && 0 < align < WORD
    ensures InPlace(regs, Carve(regs, i, count, align))
    ensures |Carve(regs, i, count, align)| > |regs| ==> Carve(regs, i, count, align)[|regs|].addr == regs[i].addr
  {
    hide RoundUp, Rest;
    var regs' := Carve(regs, i, count, align);
    if |regs'| < |regs| {
      assert OneChanged(Without(regs, i), regs', 0);
    } else {
      assert OneChanged(regs, regs'[..|regs|], i) && regs'[..|regs'|] == regs';
    }
  }

  // ---------------------------------------------------------------- the class

  datatype Claim = Taken(units: nat) | Refused      // Refused: RegionManagerException

  class RegionManager {
    var regs: seq<Region>

    ghost predicate Valid()
      reads this
    {
      Merged(regs)
    }

    constructor ()
      ensures Valid() && regs == []
    {
      regs := [];
    }

    /** total_count */
    method TotalCount() returns (s: nat)
      ensures s == Total(regs)
    {
      s := 0;
      for i := 0 to |regs|
        invariant s + Total(regs[i..]) == Total(regs)
      {
        assert regs[i..][1..] == regs[i + 1..];
        s := s + regs[i].size;
      }
    }

    /** alloc_at with free_required */
    method AllocAt(start: nat, count: nat) returns (c: Claim)
      requires Valid() && count > 0 && start + count < WORD
      modifies this
      ensures Valid()
      ensures c == Taken(count) <==> forall u :: Inside(u, Region(start, count)) ==> IsFree(old(regs), u)
      ensures c == Taken(0) <==> NoneFree(old(regs), start, count)
      ensures c == Taken(count) || c == Taken(0) || c == Refused
      ensures c == Taken(count) ==> RangeTaken(old(regs), regs, start, count) && InPlace(old(regs), regs)
      ensures |regs| > |old(regs)| ==> forall j :: 0 <= j < |old(regs)| ==> regs[j].addr == old(regs)[j].addr
      ensures c != Taken(count) ==> regs == old(regs)
    {
      hide IsFree, NoneFree, Merged, RangeTaken, CutOut, Overlapped, Inside;
      for i := 0 to |regs|
        invariant regs == old(regs)
        invariant forall j :: 0 <= j < i ==> !Overlapped(start, count, regs[j].addr, regs[j].size)
      {
        var r := regs[i];
        if Overlapped(start, count, r.addr, r.size) {
          StrictCut(regs, i, start, count);
          if !(start >= r.addr && start + count <= r.addr + r.size) {
            return Refused;
          }
          CutInPlace(regs, i, start, count);
          CutKeepsOthers(regs, i, start, count);
          regs := CutOut(regs, i, start, count);
          return Taken(count);
        }
      }
      NothingOverlapped(regs, start, count);
      return Taken(0);
    }

    /** free: the range must not be free already. */
    method Free(start: nat, count: nat)
      requires Valid() && count > 0 && start + count < WORD && NoneFree(regs, start, count)
      modifies this
      ensures Valid() && RangeGiven(old(regs), regs, start, count) && InPlace(old(regs), regs)
    {
      var p, n := -1, -1;
      var i := 0;
      while i < |regs| && !(p >= 0 && n >= 0)
        invariant 0 <= i <= |regs| && regs == old(regs)
        invariant -1 <= p < |regs| && -1 <= n < |regs|
        invariant if p >= 0 then End(regs[p]) == start else forall k :: 0 <= k < i ==> End(regs[k]) != start
        invariant if n >= 0 then regs[n].addr == start + count else forall k :: 0 <= k < i ==> regs[k].addr != start + count
      {
        if regs[i].addr + regs[i].size == start {
          p := i;
        } else if regs[i].addr == start + count {
          n := i;
        }
        i := i + 1;
      }
      FreeRegions(regs, start, count, p, n);
      FreeInPlace(regs, start, count, p, n);
      regs := FreeAfter(regs, start, count, p, n);
    }

    /** get: the first region that passes the test. */
    method Get(count: nat, align: nat) returns (i: int)
      requires 0 < align < WORD && IsPow2(align)
      ensures i == FirstSuitable(regs, 0, count, align)
    {
      hide Suitable;
      for k := 0 to |regs|
        invariant FirstSuitable(regs, 0, count, align) == FirstSuitable(regs, k, count, align)
      {
        if Suitable(regs[k], count, align) { return k; }
      }
      return -1;
    }

    /**
     alloc. The first region that passes the test serves the request; an aligned free range is
     taken and nothing else changes, if and only if that region is at least as large as its
     alignment gap.
     */
    method Alloc(count: nat, align: nat) returns (ok: bool, start: nat)
      requires Valid() && count > 0 && 0 < align < WORD && IsPow2(align)
      modifies this
      ensures ok <==> FirstSuitable(old(regs), 0, count, align) >= 0
      ensures !ok ==> regs == old(regs)
      ensures !ok ==> forall j :: 0 <= j < |regs| ==> Gap(regs[j], align) + count > regs[j].size
      ensures ok ==> var r := old(regs)[FirstSuitable(old(regs), 0, count, align)];
                     && start == RoundUp(r.addr, align) && start % align == 0
                     && InPlace(old(regs), regs) && (|regs| > |old(regs)| ==> regs[|old(regs)|].addr == r.addr)
                     && (RangeTaken(old(regs), regs, start, count) <==> Gap(r, align) <= r.size)
                     && (Gap(r, align) <= r.size ==>
                           Valid() && forall u :: Inside(u, Region(start, count)) ==> IsFree(old(regs), u))
    {
      var i := Get(count, align);
      if i < 0 {
        forall j | 0 <= j < |regs| ensures Gap(regs[j], align) + count > regs[j].size {
          NotSuitable(regs, j, count, align);
        }
        return false, 0;
      }
      AllocExactly(regs, i, count, align);
      CarveInPlace(regs, i, count, align);
      RegionInWord(regs, i);
      GapIs(regs[i], align);
      if Gap(regs[i], align) <= regs[i].size {
        CarveTakes(regs, i, count, align);
        CarvedFromFree(regs, i, RoundUp(regs[i].addr, align), count);
        TakenIsMerged(regs, Carve(regs, i, count, align), RoundUp(regs[i].addr, align), count);
      }
      hide *;
      ok, start := true, RoundUp(regs[i].addr, align);
      regs := Carve(regs, i, count, align);
    }
  }

  lemma {:induction false} TakenIsMerged(regs: seq<Region>, regs': seq<Region>, start: nat, count: nat)
    requires RangeTaken(regs, regs', start, count)
    ensures Merged(regs')
  {}

  lemma {:induction false} CarvedFromFree(regs: seq<Region>, i: nat, start: nat, count: nat)
    requires i < |regs| && regs[i].addr <= start && start + count <= End(regs[i])
    ensures forall u :: Inside(u, Region(start, count)) ==> IsFree(regs, u)
  {
    forall u | Inside(u, Region(start, count)) ensures IsFree(regs, u) { assert Inside(u, regs[i]); }
  }

  lemma {:induction false} NotSuitable(regs: seq<Region>, j: nat, count: nat, align: nat)
    requires Merged(regs) && j < |regs| && count > 0 && 0 < align < WORD
    requires !Suitable(regs[j], count, align)
    ensures Gap(regs[j], align) + count > regs[j].size
  {
    hide Gap, Word;
    RegionInWord(regs, j);
    var gap := Gap(regs[j], align);
    if gap <= regs[j].size { WordIs(regs[j].size - gap); }
  }
}
