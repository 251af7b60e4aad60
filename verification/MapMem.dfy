/**
 Hypervisor::map_mem: cuts a mapping into rounds so that the portal's reply (one typed item
 per block) fits into its message, and portal_map, which delegates one round.
 */
module MapMem {
  import opened Bits
  import opened CapSplit

  const PAGE_SIZE: nat := 4096
  const PAGES: nat := 0x10_0000           // pages of a 32-bit address space

  /** Typed items that fit into a message without saved frames: (SLOTS - POS_SLOT - 1) / 2. */
  const PORTAL_FREE: nat := 254

  /** sizeof(CapRange) in pairs of words. */
  const RANGE_ITEMS: nat := 2

  /** The number of pages map_mem asks for in the next round. */
  function Chunk(cr: CapRange, count: nat, free: nat): nat {
    var diff := Xor(cr.hotspot, cr.start);
    if cr.hotspot == NO_HOTSPOT || diff == 0 then count
    else
      var atOnce := BitScanForward(diff);
      if Pow2(atOnce) < count
      then Min((free - RANGE_ITEMS - atOnce) % WORD, count / Pow2(atOnce)) * Pow2(atOnce)
      else count
  }

  // ---------------------------------------------------------------- at_once

  /** The lowest bit in which the two differ, 0 if there is none. */
  function AtOnce(s: nat, h: nat): nat {
    if Xor(h, s) == 0 then 0 else BitScanForward(Xor(h, s))
  }

  lemma {:induction false} DiffBit(s: nat, h: nat)
    requires s != h
    ensures DifferFirstAt(s, h, AtOnce(s, h))
    ensures s < PAGES && h < PAGES ==> AtOnce(s, h) < 20
  {
    XorZero(h, s);
    var a := BitScanForward(Xor(h, s));
    ForwardIsAlignment(Xor(h, s), a);
    ForwardIsAlignment(Xor(h, s), a + 1);
    ForwardIsAlignment(Xor(h, s), 20);
    hide Xor, BitScanForward, Aligned;
    XorAligned(h, s, a);
    XorAligned(h, s, a + 1);
    XorAligned(h, s, 20);
    Pow2Of20();
    LowBound(s, 20);
    LowBound(h, 20);
  }

  lemma {:induction false} AtOnceIs(s: nat, h: nat, a: nat)
    requires DifferFirstAt(s, h, a)
    ensures s != h && Xor(h, s) > 0 && BitScanForward(Xor(h, s)) == a == AtOnce(s, h)
  {
    hide Xor, Aligned, Low;
    XorZero(h, s);
    XorAligned(h, s, a);
    XorAligned(h, s, a + 1);
    ForwardIsAlignment(Xor(h, s), a);
    ForwardIsAlignment(Xor(h, s), a + 1);
  }

  lemma {:induction false} Pow2Of20()
    ensures Pow2(20) == PAGES
  {
    assert Pow2(5) == 32;
    Pow2Add(5, 5);
    Pow2Add(10, 10);
  }

  // ---------------------------------------------------------------- one round

  /** Page numbers of an address space, or what they become when the rounds advance them. */
  predicate PagePair(s: nat, h: nat) {
    h < NO_HOTSPOT && (s == h || AtOnce(s, h) < 20)
  }

  /** A round makes progress and its items fit into the portal's reply. */
  predicate RoundWorks(cr: CapRange, count: nat, free: nat) {
    var n := Chunk(cr, count, free);
    0 < n <= count && |Greedy(cr.start, cr.hotspot, n)| <= PORTAL_FREE
  }

  /**
   When map_mem works: the two are equal, or the rest fits one block, or there are more free
   items than at_once and the range itself take. With fewer, the unsigned difference wraps and
   map_mem asks for all whole blocks at once, which works if the portal has that many items.
   */
  predicate Maps(s: nat, h: nat, count: nat, free: nat) {
    var a := AtOnce(s, h);
    || s == h
    || count <= Pow2(a)
    || free > RANGE_ITEMS + a
    || (free < RANGE_ITEMS + a && count / Pow2(a) + a - Alignment(s, a) <= PORTAL_FREE)
  }

  /** The chunk, by the room that is left: cut to fit, empty, or all whole blocks. */
  lemma {:induction false} ChunkByRoom(cr: CapRange, count: nat, free: nat, a: nat)
    requires DifferFirstAt(cr.start, cr.hotspot, a) && a < 20 && cr.hotspot < NO_HOTSPOT
    requires count <= PAGES && free <= PORTAL_FREE
    ensures count <= Pow2(a) ==> Chunk(cr, count, free) == count
    ensures count > Pow2(a) && free > RANGE_ITEMS + a ==>
              Chunk(cr, count, free) == Min(free - RANGE_ITEMS - a, count / Pow2(a)) * Pow2(a)
    ensures count > Pow2(a) && free == RANGE_ITEMS + a ==> Chunk(cr, count, free) == 0
    ensures count > Pow2(a) && free < RANGE_ITEMS + a ==> Chunk(cr, count, free) == count / Pow2(a) * Pow2(a)
  {
    hide *;
    ChunkIs(cr, count, free, a);
    QuotientBound(count, Pow2(a));
    Blocks(free, a, count / Pow2(a));
  }

  lemma {:induction false} ChunkIs(cr: CapRange, count: nat, free: nat, a: nat)
    requires DifferFirstAt(cr.start, cr.hotspot, a) && cr.hotspot < NO_HOTSPOT
    ensures Chunk(cr, count, free)
         == if Pow2(a) < count then Min((free - RANGE_ITEMS - a) % WORD, count / Pow2(a)) * Pow2(a) else count
  {
    AtOnceIs(cr.start, cr.hotspot, a);
    hide Xor, BitScanForward, Pow2, DifferFirstAt, Min;
  }

  /** The number of blocks: a negative difference is a large unsigned one. */
  lemma {:induction false} Blocks(free: nat, a: nat, q: nat)
    requires free <= PORTAL_FREE && a < 20 && q <= PAGES
    ensures Min((free - RANGE_ITEMS - a) % WORD, q)
         == if free < RANGE_ITEMS + a then q else Min(free - RANGE_ITEMS - a, q)
    ensures Min(0, q) == 0
  {}

  lemma {:induction false} QuotientBound(count: nat, p: nat)
    requires p > 0
    ensures count / p * p <= count && count / p <= count
    ensures count - count / p * p < p
    ensures p < count ==> count / p > 0 && count / p * p >= p
  {
    QuotientIs(count, p, count / p, count % p);
  }

  lemma {:induction false} QuotientIs(count: nat, p: nat, q: nat, r: nat)
    requires p > 0 && count == q * p + r && r < p
    ensures q <= count && (p < count ==> q > 0 && q * p >= p)
  {
    if q > 0 {
      assert q * p == q + q * (p - 1) && q * (p - 1) >= 0;
      assert q * p == p + (q - 1) * p && (q - 1) * p >= 0;
    }
  }

  /** A chunk that was cut to fit leaves room for the range beside its items. */
  predicate RoundFits(cr: CapRange, count: nat, free: nat, n: nat) {
    var items := |Greedy(cr.start, cr.hotspot, n)|;
    && 0 < n <= count
    && items <= PORTAL_FREE
    && (n < count ==> items + RANGE_ITEMS <= free)
  }

  lemma {:induction false} SameRound(cr: CapRange, count: nat, free: nat)
    requires cr.start == cr.hotspot && 0 < count <= PAGES
    ensures Chunk(cr, count, free) == count && RoundFits(cr, count, free, count)
  {
    XorZero(cr.hotspot, cr.start);
    assert count < Pow2(21) by { Pow2Of20(); }
    hide Greedy, BitScanForward, Xor, Pow2;
    ShortItemBound(cr.start, cr.hotspot, count, 21, 0);
  }

  lemma {:induction false} SingleRound(cr: CapRange, count: nat, free: nat, a: nat)
    requires a < 20 && DifferFirstAt(cr.start, cr.hotspot, a) && 0 < count <= Pow2(a)
    ensures RoundFits(cr, count, free, count)
  {
    hide Greedy, Pow2, Low;
    if Pow2(a) == count {
      ChunkItemBound(cr.start, cr.hotspot, 1, a);
    } else {
      ShortItemBound(cr.start, cr.hotspot, count, a, 0);
    }
  }

  lemma {:induction false} ChunkedRound(cr: CapRange, count: nat, free: nat, a: nat)
    requires RANGE_ITEMS + a < free <= PORTAL_FREE && a < 20
    requires DifferFirstAt(cr.start, cr.hotspot, a) && Pow2(a) < count
    ensures RoundFits(cr, count, free, Min(free - RANGE_ITEMS - a, count / Pow2(a)) * Pow2(a))
  {
    var f := free - RANGE_ITEMS - a;
    hide Greedy, Pow2, DifferFirstAt, Min;
    WholeBlocks(count, Pow2(a), f);
    ChunkItemBound(cr.start, cr.hotspot, Min(f, count / Pow2(a)), a);
  }

  lemma {:induction false} WholeBlocks(count: nat, p: nat, f: nat)
    requires 0 < p < count && f > 0
    ensures var m := Min(f, count / p); 0 < m <= f && 0 < m * p <= count
  {
    var q := count / p;
    QuotientBound(count, p);
    var m := Min(f, q);
    assert m * p <= q * p <= count by { assert (q - m) * p >= 0; }
    assert m * p >= p;
  }

  /** With more free items than at_once and the range take, every round fits. */
  lemma {:induction false} ChunkFits(cr: CapRange, count: nat, free: nat)
    requires PagePair(cr.start, cr.hotspot) && 0 < count <= PAGES && free <= PORTAL_FREE
    requires var a := AtOnce(cr.start, cr.hotspot);
             cr.start == cr.hotspot || count <= Pow2(a) || free > RANGE_ITEMS + a
    ensures RoundFits(cr, count, free, Chunk(cr, count, free))
  {
    if cr.start == cr.hotspot {
      SameRound(cr, count, free);
    } else {
      var a := AtOnce(cr.start, cr.hotspot);
      DiffBit(cr.start, cr.hotspot);
      ChunkByRoom(cr, count, free, a);
      hide Chunk, RoundFits, DifferFirstAt, Pow2, AtOnce, Min;
      if count <= Pow2(a) {
        SingleRound(cr, count, free, a);
      } else {
        ChunkedRound(cr, count, free, a);
      }
    }
  }

  /** All whole blocks at once: their number and the bits the start is not aligned to. */
  lemma {:induction false} WrappedRound(cr: CapRange, count: nat, free: nat, a: nat)
    requires DifferFirstAt(cr.start, cr.hotspot, a) && a < 20 && cr.hotspot < NO_HOTSPOT
    requires Pow2(a) < count <= PAGES && free < RANGE_ITEMS + a && free <= PORTAL_FREE
    ensures RoundWorks(cr, count, free) <==> count / Pow2(a) + a - Alignment(cr.start, a) <= PORTAL_FREE
  {
    ChunkByRoom(cr, count, free, a);
    hide Chunk, Pow2, DifferFirstAt, Greedy, Alignment;
    QuotientBound(count, Pow2(a));
    ChunkItemCount(cr.start, cr.hotspot, count / Pow2(a), a);
  }

  /** A round is non-empty and its reply fits exactly under the condition Maps. */
  lemma {:induction false} RoundExactly(cr: CapRange, count: nat, free: nat)
    requires PagePair(cr.start, cr.hotspot) && 0 < count <= PAGES && free <= PORTAL_FREE
    ensures RoundWorks(cr, count, free) <==> Maps(cr.start, cr.hotspot, count, free)
  {
    var a := AtOnce(cr.start, cr.hotspot);
    hide Chunk, Greedy, AtOnce, Pow2, Alignment, DifferFirstAt;
    if cr.start == cr.hotspot || count <= Pow2(a) || free > RANGE_ITEMS + a {
      ChunkFits(cr, count, free);
    } else {
      DiffBit(cr.start, cr.hotspot);
      if free == RANGE_ITEMS + a {
        ChunkByRoom(cr, count, free, a);
      } else {
        WrappedRound(cr, count, free, a);
      }
    }
  }

  /** 300 pages from 0 to 1: too large a chunk with one free item, an empty one with two. */
  lemma {:induction false} TooFewItems()
    ensures var cr := CapRange(0, 300, 1);
            && Chunk(cr, 300, 1) == 300 && |Greedy(0, 1, 300)| == 300 > PORTAL_FREE && !RoundWorks(cr, 300, 1)
            && Chunk(cr, 300, 2) == 0 && !RoundWorks(cr, 300, 2)
            && RoundWorks(cr, 300, 3)
  {
    var cr := CapRange(0, 300, 1);
    assert Low(0, 0) == Low(1, 0) && Low(0, 1) != Low(1, 1);
    AtOnceIs(0, 1, 0);
    assert Pow2(0) == 1 && Alignment(0, 0) == 0;
    hide Chunk, Greedy, AtOnce, Alignment, Pow2;
    ChunkByRoom(cr, 300, 1, 0);
    ChunkByRoom(cr, 300, 2, 0);
    ChunkItemCount(0, 1, 300, 0);
    RoundExactly(cr, 300, 3);
  }

  // ---------------------------------------------------------------- all rounds

  /** After a round that works, the next one works as well, with the same at_once. */
  lemma {:induction false} NextRound(cr: CapRange, count: nat, free: nat)
    requires PagePair(cr.start, cr.hotspot) && 0 < count <= PAGES && free <= PORTAL_FREE
    requires RoundWorks(cr, count, free) && cr.hotspot + count < NO_HOTSPOT
    ensures var n := Chunk(cr, count, free);
            n <= count && PagePair(cr.start + n, cr.hotspot + n) && Maps(cr.start + n, cr.hotspot + n, count - n, free)
  {
    var n, a := Chunk(cr, count, free), AtOnce(cr.start, cr.hotspot);
    RoundExactly(cr, count, free);
    if cr.start != cr.hotspot {
      DiffBit(cr.start, cr.hotspot);
      DifferKept(cr.start, cr.hotspot, a, n);
      AtOnceIs(cr.start + n, cr.hotspot + n, a);
      ChunkByRoom(cr, count, free, a);
      hide *;
      NextMaps(cr, count, free, a, n);
    }
  }

  lemma {:induction false} NextMaps(cr: CapRange, count: nat, free: nat, a: nat, n: nat)
    requires AtOnce(cr.start, cr.hotspot) == a == AtOnce(cr.start + n, cr.hotspot + n) && a < 20 && n <= count
    requires cr.start != cr.hotspot && cr.hotspot + n < NO_HOTSPOT && Maps(cr.start, cr.hotspot, count, free)
    requires count <= Pow2(a) ==> n == count
    requires count > Pow2(a) && free < RANGE_ITEMS + a ==> n == count / Pow2(a) * Pow2(a)
    ensures PagePair(cr.start + n, cr.hotspot + n) && Maps(cr.start + n, cr.hotspot + n, count - n, free)
  {
    hide AtOnce, Alignment, Pow2;
    QuotientBound(count, Pow2(a));
  }

  /** The chunk is empty. */
  predicate Stalls(s: nat, h: nat, count: nat, free: nat) {
    s != h && count > Pow2(AtOnce(s, h)) && free == RANGE_ITEMS + AtOnce(s, h)
  }

  /** What a round comes to. */
  lemma {:induction false} RoundOutcome(cr: CapRange, count: nat, free: nat)
    requires PagePair(cr.start, cr.hotspot) && 0 < count <= PAGES && free <= PORTAL_FREE
    ensures var n := Chunk(cr, count, free);
            && n <= count && (n == 0 <==> Stalls(cr.start, cr.hotspot, count, free))
            && (n > 0 && |Greedy(cr.start, cr.hotspot, n)| <= PORTAL_FREE <==> Maps(cr.start, cr.hotspot, count, free))
            && (n > 0 && |Greedy(cr.start, cr.hotspot, n)| <= PORTAL_FREE ==> RoundWorks(cr, count, free))
  {
    var a := AtOnce(cr.start, cr.hotspot);
    hide Chunk, Greedy, AtOnce, Pow2, Alignment, DifferFirstAt;
    RoundExactly(cr, count, free);
    if cr.start == cr.hotspot || count <= Pow2(a) || free > RANGE_ITEMS + a {
      ChunkFits(cr, count, free);
    } else {
      DiffBit(cr.start, cr.hotspot);
      ChunkByRoom(cr, count, free, a);
      QuotientBound(count, Pow2(a));
    }
  }

  lemma {:induction false} MapsOrStalls(s: nat, h: nat, count: nat, free: nat)
    ensures Maps(s, h, count, free) ==> !Stalls(s, h, count, free)
    ensures Maps(s, h, 0, free)
  {
    hide AtOnce, Pow2, Alignment;
  }

  lemma {:induction false} StartPair(s: nat, h: nat)
    requires s < PAGES && h < PAGES
    ensures PagePair(s, h)
  {
    if s != h { DiffBit(s, h); }
  }

  lemma {:induction false} IdentityAppend(s: nat, h: nat, m: nat, n: nat)
    ensures Identity(s, h, m) + Identity(s + m, h + m, n) == Identity(s, h, m + n)
  {}

  lemma {:induction false} NothingMapped(s: nat, h: nat)
    ensures Units([]) == Identity(s, h, 0)
  {}

  /** portal_map: delegates the received range in a message without saved frames. */
  method PortalMap(cr: CapRange) returns (items: seq<Block>, ok: bool)
    requires cr.count < 0x8000_0000 && cr.start + cr.count <= WORD && Target(cr) + cr.count <= WORD
    ensures ok <==> |Greedy(cr.start, Target(cr), cr.count)| <= PORTAL_FREE
    ensures ok ==> items == Greedy(cr.start, Target(cr), cr.count)
    ensures ok && cr.hotspot == NO_HOTSPOT ==> Units(items) == Identity(cr.start, cr.start, cr.count)
    ensures ok && cr.hotspot != NO_HOTSPOT ==> Units(items) == Identity(cr.start, cr.hotspot, cr.count)
  {
    items, ok := Delegate(cr, PORTAL_FREE);
  }

  /** blockcount(size, PAGE_SIZE), in word arithmetic. */
  function PageCount(size: nat): (r: nat)
    ensures r <= PAGES
  {
    (size + PAGE_SIZE - 1) % WORD / PAGE_SIZE
  }

  /** The pages cover the size exactly if rounding it up does not wrap; then none is superfluous. */
  lemma {:induction false} PagesCoverSize(size: nat)
    requires size < WORD
    ensures size <= PageCount(size) * PAGE_SIZE <==> size + PAGE_SIZE - 1 < WORD
    ensures size + PAGE_SIZE - 1 < WORD ==> PageCount(size) * PAGE_SIZE < size + PAGE_SIZE
    ensures size + PAGE_SIZE - 1 >= WORD ==> PageCount(size) == 0
  {}

  /** Endless: a round asks for no page, and so does every one after it. Refused: the reply does not fit. */
  datatype Outcome = Mapped | Endless | Refused

  /**
   map_mem. `free` is the number of free typed items of the calling thread's message. Over all
   rounds page phys+i goes to page virt+i exactly once, if and only if the condition Maps holds
   at the start; otherwise nothing is mapped.
   */
  method MapMemory(phys: nat, virt: nat, size: nat, free: nat) returns (mapped: seq<Block>, rounds: nat, r: Outcome)
    requires phys < WORD && virt < WORD && size < WORD && free <= PORTAL_FREE
    ensures r == Mapped <==> Maps(phys / PAGE_SIZE, virt / PAGE_SIZE, PageCount(size), free)
    ensures r == Mapped ==> Units(mapped) == Identity(phys / PAGE_SIZE, virt / PAGE_SIZE, PageCount(size))
    ensures r == Endless <==> Stalls(phys / PAGE_SIZE, virt / PAGE_SIZE, PageCount(size), free)
    ensures r != Mapped ==> mapped == []
    ensures |mapped| <= rounds * PORTAL_FREE
  {
    hide Maps, Stalls, AtOnce, PagePair, RoundWorks, Chunk, Greedy, Units, Identity, Pow2, PageCount;
    var pages := PageCount(size);
    var first, target := phys / PAGE_SIZE, virt / PAGE_SIZE;
    var cr := CapRange(first, pages, target);
    var count: nat := pages;
    mapped, rounds := [], 0;
    StartPair(first, target);
    NothingMapped(first, target);
    MapsOrStalls(first, target, pages, free);
    while count > 0
      invariant count <= pages && cr.count == count
      invariant cr.start == first + (pages - count) && cr.hotspot == target + (pages - count)
      invariant PagePair(cr.start, cr.hotspot)
      invariant count < pages ==> Maps(cr.start, cr.hotspot, count, free) && Maps(first, target, pages, free)
      invariant Units(mapped) == Identity(first, target, pages - count)
      invariant |mapped| <= rounds * PORTAL_FREE && (count == pages ==> mapped == [])
    {
      ghost var done, cr0 := pages - count, cr;
      RoundOutcome(cr, count, free);
      cr := cr.(count := Chunk(cr, count, free));
      if cr.count == 0 {
        MapsOrStalls(cr.start, cr.hotspot, count, free);
        return mapped, rounds, Endless;
      }
      var items, ok := PortalMap(cr);
      if !ok {
        return mapped, rounds, Refused;
      }
      NextRound(cr0, count, free);
      UnitsAppend(mapped, items);
      IdentityAppend(first, target, done, cr.count);
      mapped := mapped + items;
      rounds := rounds + 1;
      cr := cr.(start := cr.start + cr.count, hotspot := cr.hotspot + cr.count);
      count := count - cr.count;
      cr := cr.(count := count);
    }
    r := Mapped;
  }
}
