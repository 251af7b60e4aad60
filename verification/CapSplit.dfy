/**
 Splitting capability ranges into naturally aligned blocks:
 UtcbFrameRef::delegate / translate, CapRange::limit_to and the chunking loop of
 Hypervisor::map_mem.

 A typed item can only describe a power-of-two block that is aligned both at its source and
 at its hotspot, and a message holds a bounded number of items.
 */
module CapSplit {
  import opened Bits

  /** One delegation item: 2^order units from `src` to `dst`. */
  datatype Block = Block(src: nat, dst: nat, order: nat)

  datatype CapRange = CapRange(start: nat, count: nat, hotspot: nat)

  const NO_HOTSPOT: nat := WORD - 1

  function Target(r: CapRange): nat {
    if r.hotspot != NO_HOTSPOT then r.hotspot else r.start
  }

  /** A block of order `j` at `start` / `hotspot` that fits into `count` units. */
  predicate Fits(start: nat, hotspot: nat, count: nat, j: nat) {
    Aligned(start, j) && Aligned(hotspot, j) && Pow2(j) <= count
  }

  /** The largest order that fits. */
  function Order(start: nat, hotspot: nat, count: nat): nat
    requires count > 0
  {
    if count >= 2 && start % 2 == 0 && hotspot % 2 == 0
    then 1 + Order(start / 2, hotspot / 2, count / 2)
    else 0
  }

  lemma {:induction false} OrderIsLargest(start: nat, hotspot: nat, count: nat, j: nat)
    requires count > 0
    ensures j <= Order(start, hotspot, count) <==> Fits(start, hotspot, count, j)
    decreases j
  {
    if j > 0 && count >= 2 { OrderIsLargest(start / 2, hotspot / 2, count / 2, j - 1); }
  }

  /** The loop's `minshift(start | hotspot, count)` is the largest order that fits. */
  lemma {:induction false} MinShiftIsOrder(start: nat, hotspot: nat, count: nat)
    requires 0 < count < Pow2(32)
    ensures MinShift(Or(start, hotspot), count) == Order(start, hotspot, count)
  {
    hide *;
    var m, o := MinShift(Or(start, hotspot), count), Order(start, hotspot, count);
    OrderBelow(start, hotspot, count, 32);
    MinShiftFits(start, hotspot, count, o);
    MinShiftFits(start, hotspot, count, m);
    OrderIsLargest(start, hotspot, count, o);
    OrderIsLargest(start, hotspot, count, m);
  }

  lemma {:induction false} MinShiftFits(start: nat, hotspot: nat, count: nat, j: nat)
    requires count > 0
    ensures j <= MinShift(Or(start, hotspot), count) <==> j <= 31 && Fits(start, hotspot, count, j)
  {
    hide MinShift, Or;
    MinShiftIsLargest(Or(start, hotspot), count, j);
    OrAligned(start, hotspot, j);
  }

  lemma {:induction false} OrderBelow(start: nat, hotspot: nat, count: nat, k: nat)
    requires 0 < count < Pow2(k)
    ensures Order(start, hotspot, count) < k
  {
    if count >= 2 { OrderBelow(start / 2, hotspot / 2, count / 2, k - 1); }
  }

  lemma {:induction false} OrderFits(start: nat, hotspot: nat, count: nat)
    requires count > 0
    ensures Fits(start, hotspot, count, Order(start, hotspot, count))
  {
    OrderIsLargest(start, hotspot, count, Order(start, hotspot, count));
  }

  lemma {:induction false} OrderIs(start: nat, hotspot: nat, count: nat, k: nat)
    requires count > 0
    requires Fits(start, hotspot, count, k) && !Fits(start, hotspot, count, k + 1)
    ensures Order(start, hotspot, count) == k
  {
    hide *;
    OrderIsLargest(start, hotspot, count, k);
    OrderIsLargest(start, hotspot, count, k + 1);
  }

  /** The blocks the delegate loop produces. */
  function Greedy(start: nat, hotspot: nat, count: nat): seq<Block>
    decreases count
  {
    if count == 0 then []
    else
      OrderFits(start, hotspot, count);
      var k := Order(start, hotspot, count);
      [Block(start, hotspot, k)] + Greedy(start + Pow2(k), hotspot + Pow2(k), count - Pow2(k))
  }

  lemma {:induction false} GreedyOfNothing(s: nat, h: nat)
    ensures |Greedy(s, h, 0)| == PopCount(0) == 0
  {}

  /** One round of the loop, given the order it picks. */
  lemma {:induction false} GreedyStep(s: nat, h: nat, c: nat, k: nat)
    requires c > 0 && Fits(s, h, c, k) && !Fits(s, h, c, k + 1)
    ensures Greedy(s, h, c) == [Block(s, h, k)] + Greedy(s + Pow2(k), h + Pow2(k), c - Pow2(k))
  {
    OrderIs(s, h, c, k);
  }

  /** `bs` splits [s, s+c) in order into blocks that are aligned at both ends of the mapping. */
  predicate IsTiling(bs: seq<Block>, s: nat, h: nat, c: nat) {
    if bs == [] then c == 0
    else
      && bs[0].src == s && bs[0].dst == h
      && Fits(s, h, c, bs[0].order)
      && IsTiling(bs[1..], s + Pow2(bs[0].order), h + Pow2(bs[0].order), c - Pow2(bs[0].order))
  }

  lemma {:induction false} GreedyTiles(s: nat, h: nat, c: nat)
    ensures IsTiling(Greedy(s, h, c), s, h, c)
    decreases c
  {
    if c > 0 {
      OrderFits(s, h, c);
      var p := Pow2(Order(s, h, c));
      GreedyTiles(s + p, h + p, c - p);
    }
  }

  /** The unit-to-unit mapping a sequence of blocks establishes, in order. */
  function Units(bs: seq<Block>): seq<(nat, nat)> {
    if bs == [] then []
    else seq(Pow2(bs[0].order), i requires 0 <= i => (bs[0].src + i, bs[0].dst + i)) + Units(bs[1..])
  }

  function Identity(s: nat, h: nat, c: nat): seq<(nat, nat)> {
    seq(c, i requires 0 <= i => (s + i, h + i))
  }

  /** Unit s+i goes to h+i, every unit exactly once and in order. */
  lemma {:induction false} TilingMapsEveryUnit(bs: seq<Block>, s: nat, h: nat, c: nat)
    requires IsTiling(bs, s, h, c)
    ensures Units(bs) == Identity(s, h, c)
  {
    if bs != [] {
      var p := Pow2(bs[0].order);
      TilingMapsEveryUnit(bs[1..], s + p, h + p, c - p);
      assert Identity(s, h, c) == Identity(s, h, p) + Identity(s + p, h + p, c - p);
    }
  }

  lemma {:induction false} UnitsAppend(cs: seq<Block>, bs: seq<Block>)
    ensures Units(cs + bs) == Units(cs) + Units(bs)
  {
    if cs == [] {
      assert cs + bs == bs;
    } else {
      assert (cs + bs)[1..] == cs[1..] + bs;
      UnitsAppend(cs[1..], bs);
    }
  }

  // ---------------------------------------------------------------- no tiling is shorter

  /** How far the first `n` greedy blocks of [s, s+c) reach. */
  function Reach(s: nat, h: nat, c: nat, n: nat): (r: nat)
    ensures r <= c
    decreases n
  {
    if n == 0 || c == 0 then 0
    else
      OrderFits(s, h, c);
      var p := Pow2(Order(s, h, c));
      p + Reach(s + p, h + p, c - p, n - 1)
  }

  lemma {:induction false} ReachMonotone(s: nat, h: nat, c: nat, m: nat, n: nat)
    requires m <= n
    ensures Reach(s, h, c, m) <= Reach(s, h, c, n)
    decreases m
  {
    if m > 0 && c > 0 {
      OrderFits(s, h, c);
      var p := Pow2(Order(s, h, c));
      ReachMonotone(s + p, h + p, c - p, m - 1, n - 1);
    }
  }

  lemma {:induction false} ReachOfPrefix(s: nat, h: nat, c: nat, n: nat)
    ensures Reach(s, h, c, n) == c <==> |Greedy(s, h, c)| <= n
    ensures n <= |Greedy(s, h, c)| ==> IsTiling(Greedy(s, h, c)[..n], s, h, Reach(s, h, c, n))
    decreases n
  {
    if n > 0 && c > 0 {
      OrderFits(s, h, c);
      var p := Pow2(Order(s, h, c));
      ReachOfPrefix(s + p, h + p, c - p, n - 1);
      var g := Greedy(s, h, c);
      if n <= |g| {
        assert g[..n][1..] == g[1..][..n - 1];
      }
    }
  }

  /**
   Aligned blocks are laminar: a tiling whose first block is no larger than the aligned block
   of order `g` at `s` has a block boundary at its end. `x` units of it are already passed.
   */
  lemma {:induction false} BoundaryAt(bs: seq<Block>, s: nat, h: nat, d: nat, g: nat, x: nat) returns (k: nat)
    requires x <= Pow2(g) <= d
    requires Aligned(s, g) && IsTiling(bs, s + x, h + x, d - x)
    requires x == 0 ==> bs[0].order <= g
    ensures k <= |bs| && (x < Pow2(g) ==> k > 0)
    ensures IsTiling(bs[k..], s + Pow2(g), h + Pow2(g), d - Pow2(g))
    decreases |bs|
  {
    if x == Pow2(g) {
      k := 0;
      assert bs[0..] == bs;
    } else {
      var j := bs[0].order;
      if x == 0 {
        Pow2Monotone(j, g);
      } else {
        if j >= g {
          AlignedWeaken(s + x, g, j);
          AlignedAdd(s, x, g);
          LowBound(x, g);
          assert false;
        }
        AlignedWeaken(s, j, g);
        AlignedAdd(s, x, j);
        AlignedPow2(g, j);
        AlignedGap(x, Pow2(g), j);
      }
      k := BoundaryAt(bs[1..], s, h, d, g, x + Pow2(j));
      assert bs[1..][k..] == bs[k + 1..];
      k := k + 1;
    }
  }

  lemma {:induction false} TilingOfNothing(bs: seq<Block>, s: nat, h: nat, c: nat)
    requires IsTiling(bs, s, h, c)
    ensures bs == [] ==> c == 0
    ensures bs != [] ==> c > 0
  {}

  lemma {:induction false} ReachOfNothing(s: nat, h: nat, c: nat, n: nat)
    ensures c == 0 || n == 0 ==> Reach(s, h, c, n) == 0
  {}

  lemma {:induction false} ReachStep(s: nat, h: nat, c: nat, n: nat)
    requires n > 0 && c > 0
    ensures var p := Pow2(Order(s, h, c));
            p <= c && Reach(s, h, c, n) == p + Reach(s + p, h + p, c - p, n - 1)
  {
    OrderFits(s, h, c);
  }

  lemma {:induction false} FirstBlock(bs: seq<Block>, s: nat, h: nat, d: nat, c: nat)
    requires bs != [] && IsTiling(bs, s, h, d) && d <= c
    ensures 0 < d && bs[0].order <= Order(s, h, c) && Aligned(s, Order(s, h, c))
  {
    assert Fits(s, h, d, bs[0].order) && Fits(s, h, c, bs[0].order);
    hide Order;
    OrderFits(s, h, c);
    OrderIsLargest(s, h, c, bs[0].order);
  }

  /** Greedy stays ahead of every tiling with the same number of blocks. */
  lemma {:induction false} StaysAhead(bs: seq<Block>, s: nat, h: nat, d: nat, c: nat)
    requires IsTiling(bs, s, h, d) && d <= c
    ensures d <= Reach(s, h, c, |bs|)
    decreases |bs|
  {
    hide *;
    TilingOfNothing(bs, s, h, d);
    if bs != [] {
      var g, n := Order(s, h, c), |bs|;
      FirstBlock(bs, s, h, d, c);
      ReachStep(s, h, c, n);
      var p := Pow2(g);
      if p < d {
        var k := BoundaryAt(bs, s, h, d, g, 0);
        StaysAhead(bs[k..], s + p, h + p, d - p, c - p);
        ReachMonotone(s + p, h + p, c - p, n - k, n - 1);
      }
    }
  }

  /** No tiling of a range into doubly aligned blocks has fewer blocks than the loop's. */
  lemma {:induction false} GreedyIsShortest(bs: seq<Block>, s: nat, h: nat, c: nat)
    requires IsTiling(bs, s, h, c)
    ensures |Greedy(s, h, c)| <= |bs|
  {
    StaysAhead(bs, s, h, c, c);
    ReachOfPrefix(s, h, c, |bs|);
  }

  // ---------------------------------------------------------------- counting the items

  lemma {:induction false} PopDigit(x: nat, d: nat)
    requires d < 2
    ensures PopCount(2 * x + d) == PopCount(x) + d
  {
    assert (2 * x + d) / 2 == x && (2 * x + d) % 2 == d;
  }

  lemma {:induction false} ForwardDigit(x: nat)
    requires x > 0
    ensures x % 2 == 0 ==> Pow2(BitScanForward(x)) == 2 * Pow2(BitScanForward(x / 2))
    ensures x % 2 == 1 ==> Pow2(BitScanForward(x)) == 1
  {}

  lemma {:induction false} PopStep(x: nat)
    requires x > 0
    ensures PopCount(x + Pow2(BitScanForward(x)) - 1) == PopCount(x - 1) + 1
  {
    hide *;
    ForwardDigit(x);
    var h := x / 2;
    if x % 2 == 0 {
      PopStep(h);
      PopDigit(h + Pow2(BitScanForward(h)) - 1, 1);
      PopDigit(h - 1, 1);
    } else {
      PopDigit(h, 1);
      PopDigit(h, 0);
    }
  }

  lemma {:induction false} PopFull(a: nat)
    ensures PopCount(Pow2(a) - 1) == a
  {
    if a > 0 {
      PopFull(a - 1);
      assert (Pow2(a) - 1) % 2 == 1 && (Pow2(a) - 1) / 2 == Pow2(a - 1) - 1;
    }
  }

  /** Counting down by one turns the lowest set bit into as many ones as there were zeros. */
  lemma {:induction false} PopDrop(x: nat)
    requires x > 0
    ensures PopCount(x) + BitScanForward(x) == PopCount(x - 1) + 1
  {
    if x % 2 == 0 {
      PopDrop(x / 2);
      assert (x - 1) % 2 == 1 && (x - 1) / 2 == x / 2 - 1;
    } else {
      assert (x - 1) / 2 == x / 2;
    }
  }

  lemma {:induction false} PopTop(c: nat)
    requires c > 0
    ensures Pow2(BitScanReverse(c)) <= c
    ensures PopCount(c) == 1 + PopCount(c - Pow2(BitScanReverse(c)))
  {
    ReverseIsLog(c);
    if c > 1 {
      PopTop(c / 2);
      var r := c - Pow2(BitScanReverse(c));
      assert r % 2 == c % 2 && r / 2 == c / 2 - Pow2(BitScanReverse(c / 2));
      assert r == 0 ==> c % 2 == 0 && PopCount(r / 2) == 0;
    }
  }

  lemma {:induction false} PopBound(c: nat, j: nat)
    requires c < Pow2(j)
    ensures PopCount(c) <= j
  {
    if c > 0 && j > 0 { PopBound(c / 2, j - 1); }
  }

  /** From an aligned start the remaining length falls apart into its binary digits. */
  lemma {:induction false} TailIsPopCount(s: nat, h: nat, c: nat, j: nat)
    requires j <= 32 && c < Pow2(j) && Aligned(s, j) && Aligned(h, j)
    ensures |Greedy(s, h, c)| == PopCount(c)
    decreases c
  {
    hide *;
    if c == 0 {
      GreedyOfNothing(s, h);
    } else {
      var k := BitScanReverse(c);
      var p := Pow2(k);
      TailStep(s, h, c, j);
      GreedyStep(s, h, c, k);
      TailIsPopCount(s + p, h + p, c - p, k);
      PopTop(c);
    }
  }

  lemma {:induction false} TailStep(s: nat, h: nat, c: nat, j: nat)
    requires j <= 32 && 0 < c < Pow2(j) && Aligned(s, j) && Aligned(h, j)
    ensures var k := BitScanReverse(c);
            && k < j && Pow2(k) <= c < 2 * Pow2(k)
            && Fits(s, h, c, k) && !Fits(s, h, c, k + 1)
            && Aligned(s + Pow2(k), k) && Aligned(h + Pow2(k), k)
  {
    var k := BitScanReverse(c);
    ReverseIsLog(c);
    if j <= k { Pow2Monotone(j, k); }
    AlignedWeaken(s, k, j);
    AlignedWeaken(h, k, j);
    AlignedPow2(k, k);
    AlignedAdd(s, Pow2(k), k);
    AlignedAdd(h, Pow2(k), k);
  }

  lemma {:induction false} LowDigit(x: nat, k: nat)
    requires k > 0
    ensures Low(x, k) == 2 * Low(x / 2, k - 1) + x % 2
  {}

  lemma {:induction false} HalfSums(x: nat, y: nat, t: nat)
    ensures (x + t) % 2 == (y + t) % 2 <==> x % 2 == y % 2
    ensures x % 2 == y % 2 ==> var u := (x % 2 + t) / 2; (x + t) / 2 == x / 2 + u && (y + t) / 2 == y / 2 + u
  {}

  lemma {:induction false} LowOfNothing(x: nat)
    ensures Low(x, 0) == 0
  {}

  /** Adding the same amount keeps the agreement of the lowest bits. */
  lemma {:induction false} LowAgreeAdd(x: nat, y: nat, t: nat, k: nat)
    ensures Low(x + t, k) == Low(y + t, k) <==> Low(x, k) == Low(y, k)
    decreases k
  {
    hide *;
    if k == 0 {
      LowOfNothing(x);
      LowOfNothing(y);
      LowOfNothing(x + t);
      LowOfNothing(y + t);
    } else {
      LowAgreeDigit(x, y, k);
      LowAgreeDigit(x + t, y + t, k);
      HalfSums(x, y, t);
      if x % 2 == y % 2 { LowAgreeAdd(x / 2, y / 2, (x % 2 + t) / 2, k - 1); }
    }
  }

  lemma {:induction false} LowAgreeDigit(x: nat, y: nat, k: nat)
    requires k > 0
    ensures Low(x, k) == Low(y, k) <==> x % 2 == y % 2 && Low(x / 2, k - 1) == Low(y / 2, k - 1)
  {
    hide Low;
    LowDigit(x, k);
    LowDigit(y, k);
  }

  lemma {:induction false} AlignedByLowBits(s: nat, a: nat, j: nat)
    requires j <= a
    ensures Aligned(s, j) <==> Aligned(Low(s, a), j)
  {
    if j > 0 { AlignedByLowBits(s / 2, a - 1, j - 1); }
  }

  lemma {:induction false} LowPlus(s: nat, t: nat, a: nat)
    requires Low(s, a) + t <= Pow2(a)
    ensures Low(s + t, a) == if Low(s, a) + t == Pow2(a) then 0 else Low(s, a) + t
  {
    hide Low, Pow2;
    var p, r := Pow2(a), Low(s, a);
    var q := s / p;
    assert s == q * p + r by { LowIsRemainder(s, a); }
    if r + t < p {
      assert (s + t) % p == r + t by { DivModUnique(s + t, p, q, r + t); }
    } else {
      assert (s + t) % p == 0 by {
        assert s + t == (q + 1) * p + 0;
        DivModUnique(s + t, p, q + 1, 0);
      }
    }
    assert Low(s + t, a) == (s + t) % p by { LowIsRemainder(s + t, a); }
  }

  /** Position of `s` within its 2^a block, taken in 1 .. 2^a. */
  function Offset(s: nat, a: nat): (x: nat)
    ensures 0 < x <= Pow2(a)
  {
    LowBound(s, a);
    if Low(s, a) == 0 then Pow2(a) else Low(s, a)
  }

  lemma {:induction false} OffsetStep(s: nat, a: nat)
    requires Offset(s, a) < Pow2(a)
    ensures var g := BitScanForward(Offset(s, a));
            g < a && Offset(s, a) + Pow2(g) <= Pow2(a)
            && Offset(s + Pow2(g), a) == Offset(s, a) + Pow2(g)
            && Aligned(s, g) && !Aligned(s, g + 1)
  {
    var x := Offset(s, a);
    var g := BitScanForward(x);
    ForwardIsAlignment(x, g);
    ForwardIsAlignment(x, g + 1);
    ForwardIsAlignment(x, a);
    LowBound(x, a);
    AlignedPow2(a, g);
    AlignedGap(x, Pow2(a), g);
    AlignedByLowBits(s, a, g);
    AlignedByLowBits(s, a, g + 1);
    LowPlus(s, Pow2(g), a);
  }

  /** start and hotspot agree below bit `a` and differ in bit `a`. */
  predicate DifferFirstAt(s: nat, h: nat, a: nat) {
    Low(s, a) == Low(h, a) && Low(s, a + 1) != Low(h, a + 1)
  }

  lemma {:induction false} DifferKept(s: nat, h: nat, a: nat, t: nat)
    requires DifferFirstAt(s, h, a)
    ensures DifferFirstAt(s + t, h + t, a)
  {
    LowAgreeAdd(s, h, t, a);
    LowAgreeAdd(s, h, t, a + 1);
  }

  lemma {:induction false} DifferCaps(s: nat, h: nat, a: nat)
    requires DifferFirstAt(s, h, a)
    ensures !(Aligned(s, a + 1) && Aligned(h, a + 1))
    ensures Aligned(s, a) <==> Aligned(h, a)
  {
    LowBound(s, a + 1);
    LowBound(h, a + 1);
    LowBound(s, a);
    LowBound(h, a);
  }

  /** Number of items for a range that leaves its first 2^a block: climb, full blocks, rest. */
  function ItemCount(x: nat, c: nat, a: nat): int
    requires 0 < x <= Pow2(a) && Pow2(a) <= c + x
  {
    (a - PopCount(x - 1)) + (c + x - Pow2(a)) / Pow2(a) + PopCount((c + x) % Pow2(a))
  }

  lemma {:induction false} DivModShift(c: nat, p: nat)
    requires 0 < p <= c
    ensures (c - p) % p == c % p && (c - p) / p == c / p - 1
  {
    var q := c / p;
    assert c == q * p + c % p;
    assert q >= 1 by { assert q <= 0 ==> q * p <= 0; }
    assert c - p == (q - 1) * p + c % p;
    DivModUnique(c - p, p, q - 1, c % p);
  }

  /**
   The exact number of items. This is the bit-counting argument behind the comment in
   map_mem that aligning a chunk takes at most at_once items.
   */
  lemma {:induction false} GreedyItemCount(s: nat, h: nat, c: nat, a: nat)
    requires a <= 31 && DifferFirstAt(s, h, a) && Pow2(a) <= c + Offset(s, a)
    ensures |Greedy(s, h, c)| == ItemCount(Offset(s, a), c, a)
    decreases c
  {
    LowBound(s, a);
    hide Greedy;
    if Offset(s, a) == Pow2(a) {
      ItemCountAligned(s, h, c, a);
    } else {
      ItemCountClimb(s, h, c, a);
    }
  }

  lemma {:induction false} ItemCountAtBoundary(c: nat, a: nat)
    ensures ItemCount(Pow2(a), c, a) == c / Pow2(a) + PopCount(c % Pow2(a))
  {
    hide *;
    var p := Pow2(a);
    PopFull(a);
    assert c + p == (c / p + 1) * p + c % p;
    ItemCountIs(p, c, a, c / p, c % p);
  }

  lemma {:induction false} BoundaryStep(s: nat, h: nat, c: nat, a: nat)
    requires a <= 31 && DifferFirstAt(s, h, a) && Aligned(s, a) && Pow2(a) <= c
    ensures Fits(s, h, c, a) && !Fits(s, h, c, a + 1)
  {
    DifferCaps(s, h, a);
  }

  /** At a 2^a boundary: full blocks while they fit, then the binary digits of the rest. */
  lemma {:induction false} ItemCountAligned(s: nat, h: nat, c: nat, a: nat)
    requires a <= 31 && DifferFirstAt(s, h, a) && Aligned(s, a)
    ensures |Greedy(s, h, c)| == ItemCount(Pow2(a), c, a)
    decreases c, 0
  {
    hide *;
    var p := Pow2(a);
    DifferCaps(s, h, a);
    if c < p {
      DivModUnique(c, p, 0, c);
      ItemCountAtBoundary(c, a);
      TailIsPopCount(s, h, c, a);
    } else {
      BoundaryStep(s, h, c, a);
      GreedyStep(s, h, c, a);
      DifferKept(s, h, a, p);
      AlignedPow2(a, a);
      AlignedAdd(s, p, a);
      ItemCountAligned(s + p, h + p, c - p, a);
      ItemCountAtBoundary(c, a);
      ItemCountAtBoundary(c - p, a);
      DivModShift(c, p);
    }
  }

  lemma {:induction false} ItemCountStep(x: nat, c: nat, a: nat)
    requires 0 < x && Pow2(a) <= c + x
    requires var p := Pow2(BitScanForward(x)); x + p <= Pow2(a) && p <= c
    ensures var p := Pow2(BitScanForward(x));
            ItemCount(x, c, a) == 1 + ItemCount(x + p, c - p, a)
  {
    var p := Pow2(BitScanForward(x));
    PopStep(x);
    assert c - p + (x + p) == c + x;
  }

  lemma {:induction false} ClimbStep(s: nat, h: nat, c: nat, a: nat)
    requires a <= 31 && DifferFirstAt(s, h, a) && Offset(s, a) < Pow2(a) <= c + Offset(s, a)
    ensures var g := BitScanForward(Offset(s, a));
            && Pow2(g) <= c && Fits(s, h, c, g) && !Fits(s, h, c, g + 1)
            && DifferFirstAt(s + Pow2(g), h + Pow2(g), a)
            && Offset(s + Pow2(g), a) == Offset(s, a) + Pow2(g) <= Pow2(a)
  {
    OffsetStep(s, a);
    OffsetStep(h, a);
    DifferKept(s, h, a, Pow2(BitScanForward(Offset(s, a))));
  }

  /** Below a 2^a boundary: every item clears the lowest set bit of the position. */
  lemma {:induction false} ItemCountClimb(s: nat, h: nat, c: nat, a: nat)
    requires a <= 31 && DifferFirstAt(s, h, a) && Offset(s, a) < Pow2(a) <= c + Offset(s, a)
    ensures |Greedy(s, h, c)| == ItemCount(Offset(s, a), c, a)
    decreases c, 0
  {
    hide *;
    var x := Offset(s, a);
    var g := BitScanForward(x);
    var p := Pow2(g);
    ClimbStep(s, h, c, a);
    GreedyStep(s, h, c, g);
    GreedyItemCount(s + p, h + p, c - p, a);
    ItemCountStep(x, c, a);
  }

  lemma {:induction false} ForwardOfPow2(a: nat)
    ensures BitScanForward(Pow2(a)) == a
  {
    if a > 0 { ForwardOfPow2(a - 1); }
  }

  lemma {:induction false} ItemCountIs(x: nat, c: nat, a: nat, q: int, r: nat)
    requires 0 < x <= Pow2(a) && Pow2(a) <= c + x
    requires c + x == (q + 1) * Pow2(a) + r && r < Pow2(a)
    ensures ItemCount(x, c, a) == a - PopCount(x - 1) + q + PopCount(r)
  {
    hide PopCount, Pow2;
    var p := Pow2(a);
    assert c + x - p == q * p + r;
    DivModUnique(c + x, p, q + 1, r);
    DivModUnique(c + x - p, p, q, r);
  }

  lemma {:induction false} ItemCountWhole(x: nat, m: nat, a: nat)
    requires 0 < x <= Pow2(a) && m > 0
    ensures Pow2(a) <= m * Pow2(a)
    ensures ItemCount(x, m * Pow2(a), a) == m + a - BitScanForward(x)
  {
    hide *;
    Products(m, Pow2(a));
    if x == Pow2(a) {
      ForwardOfPow2(a);
      PopFull(a);
      PopOfZero();
      ItemCountIs(x, m * Pow2(a), a, m, 0);
    } else {
      PopDrop(x);
      ItemCountIs(x, m * Pow2(a), a, m - 1, x);
    }
  }

  lemma {:induction false} Products(m: nat, p: nat)
    requires m > 0
    ensures p <= m * p && m * p + p == (m + 1) * p && (m - 1 + 1) * p == m * p
  {}

  lemma {:induction false} PopOfZero()
    ensures PopCount(0) == 0
  {}

  /** How far `s` is aligned below bit `a`; `a` at a 2^a boundary. */
  function Alignment(s: nat, a: nat): nat {
    BitScanForward(Offset(s, a))
  }

  lemma {:induction false} AlignmentBound(s: nat, a: nat)
    ensures Alignment(s, a) <= a
  {
    ForwardIsAlignment(Offset(s, a), a + 1);
    LowBound(Offset(s, a), a + 1);
  }

  /** A range of m * 2^a units takes m items, and one more for each bit its start is not aligned to. */
  lemma {:induction false} ChunkItemCount(s: nat, h: nat, m: nat, a: nat)
    requires a <= 31 && m > 0 && DifferFirstAt(s, h, a)
    ensures |Greedy(s, h, m * Pow2(a))| == m + a - Alignment(s, a)
  {
    hide *;
    ItemCountWhole(Offset(s, a), m, a);
    GreedyItemCount(s, h, m * Pow2(a), a);
    assert Alignment(s, a) == BitScanForward(Offset(s, a)) by { AlignmentIs(s, a); }
  }

  lemma {:induction false} AlignmentIs(s: nat, a: nat)
    ensures Alignment(s, a) == BitScanForward(Offset(s, a))
  {}

  /** A range of m * 2^a units, at any offset, needs at most m + a items. */
  lemma {:induction false} ChunkItemBound(s: nat, h: nat, m: nat, a: nat)
    requires a <= 31 && m > 0 && DifferFirstAt(s, h, a)
    ensures |Greedy(s, h, m * Pow2(a))| <= m + a
  {
    ChunkItemCount(s, h, m, a);
    hide *;
  }

  /** Adding the lowest set bit clears it. */
  lemma {:induction false} NextAlignment(s: nat, g: nat)
    requires Aligned(s, g) && !Aligned(s, g + 1)
    ensures Aligned(s + Pow2(g), g + 1)
  {
    if g > 0 {
      NextAlignment(s / 2, g - 1);
      assert (s + Pow2(g)) / 2 == s / 2 + Pow2(g - 1);
    }
  }

  lemma {:induction false} ShortStep(s: nat, h: nat, c: nat, k: nat, j: nat)
    requires j <= k <= 31 && 0 < c < Pow2(k) && Low(s, k) == Low(h, k)
    requires Aligned(s, j) && Aligned(h, j)
    ensures var g := Order(s, h, c); var p := Pow2(g);
            && g < k && p <= c
            && Greedy(s, h, c) == [Block(s, h, g)] + Greedy(s + p, h + p, c - p)
            && (c < 2 * p ==> Aligned(s + p, g) && Aligned(h + p, g))
            && (2 * p <= c ==> j <= g && Aligned(s + p, g + 1) && Aligned(h + p, g + 1))
  {
    var g := Order(s, h, c);
    var p := Pow2(g);
    assert Fits(s, h, c, g) && !Fits(s, h, c, g + 1) by {
      OrderFits(s, h, c);
      OrderIsLargest(s, h, c, g + 1);
    }
    hide Order;
    assert g < k by { if k <= g { Pow2Monotone(k, g); } }
    if c < 2 * p {
      AlignedPow2(g, g);
      AlignedAdd(s, p, g);
      AlignedAdd(h, p, g);
    } else {
      AlignedByLowBits(s, k, g + 1);
      AlignedByLowBits(h, k, g + 1);
      if j > g { AlignedWeaken(s, g + 1, j); }
      NextAlignment(s, g);
      NextAlignment(h, g);
    }
  }

  /** A short range needs at most one climbing and one falling item per bit. */
  lemma {:induction false} ShortItemBound(s: nat, h: nat, c: nat, k: nat, j: nat)
    requires j <= k <= 31 && c < Pow2(k) && Low(s, k) == Low(h, k)
    requires Aligned(s, j) && Aligned(h, j)
    ensures |Greedy(s, h, c)| <= 2 * k - j
    decreases c
  {
    hide *;
    if c == 0 {
      GreedyOfNothing(s, h);
    } else {
      var g := Order(s, h, c);
      var p := Pow2(g);
      ShortStep(s, h, c, k, j);
      if c < 2 * p {
        TailIsPopCount(s + p, h + p, c - p, g);
        PopBound(c - p, g);
      } else {
        LowAgreeAdd(s, h, p, k);
        ShortItemBound(s + p, h + p, c - p, k, g + 1);
      }
    }
  }

  // ---------------------------------------------------------------- the loops

  lemma {:induction false} GreedyUnfold(s: nat, h: nat, c: nat)
    requires c > 0
    ensures var k := Order(s, h, c); var p := Pow2(k);
            p <= c && Greedy(s, h, c) == [Block(s, h, k)] + Greedy(s + p, h + p, c - p)
  {
    OrderFits(s, h, c);
  }

  /**
   UtcbFrameRef::delegate(CapRange): one typed item per block, until the range is exhausted or
   a further item finds no room (`free` slots) and the capacity exception is thrown.
   */
  method Delegate(r: CapRange, free: nat) returns (items: seq<Block>, ok: bool)
    requires r.count < 0x8000_0000 && r.start + r.count <= WORD && Target(r) + r.count <= WORD
    ensures ok && r.hotspot == NO_HOTSPOT ==> Units(items) == Identity(r.start, r.start, r.count)
    ensures ok && r.hotspot != NO_HOTSPOT ==> Units(items) == Identity(r.start, r.hotspot, r.count)
    ensures ok ==> IsTiling(items, r.start, Target(r), r.count)
    ensures ok <==> Coverable(r.start, Target(r), r.count, free)
    ensures ok <==> |Greedy(r.start, Target(r), r.count)| <= free
    ensures |items| == Min(free, |Greedy(r.start, Target(r), r.count)|)
    ensures items == Greedy(r.start, Target(r), r.count)[..|items|]
  {
    ghost var all := Greedy(r.start, Target(r), r.count);
    hide Greedy, Order, MinShift, Or, Pow2, IsTiling, Units, Identity;
    items, ok := [], true;
    var start: nat, hotspot: nat, count: nat := r.start, Target(r), r.count;
    while count > 0 && ok
      invariant start + count <= WORD && hotspot + count <= WORD && count < 0x8000_0000
      invariant items + Greedy(start, hotspot, count) == all
      invariant |items| <= free && (!ok ==> count > 0 && |items| == free)
      decreases count, ok
    {
      Pow2Of32();
      MinShiftIsOrder(start, hotspot, count);
      GreedyUnfold(start, hotspot, count);
      var minshift := MinShift(Or(start, hotspot), count);
      if |items| == free {
        ok := false;
      } else {
        items := items + [Block(start, hotspot, minshift)];
        start := start + Pow2(minshift);
        hotspot := hotspot + Pow2(minshift);
        count := count - Pow2(minshift);
      }
    }
    if ok {
      GreedyOfNothing(start, hotspot);
      assert items == all;
    } else {
      GreedyUnfold(start, hotspot, count);
    }
    TilingExists(r.start, Target(r), r.count, free);
  }

  /** `n` aligned blocks suffice for the `c` units from `s`, to be mapped to `h`. */
  ghost predicate Coverable(s: nat, h: nat, c: nat, n: nat) {
    exists bs :: IsTiling(bs, s, h, c) && |bs| <= n
  }

  /** A range has a tiling of at most `n` blocks exactly if the loop needs at most `n`. */
  lemma {:induction false} TilingExists(s: nat, h: nat, c: nat, n: nat)
    ensures IsTiling(Greedy(s, h, c), s, h, c) && Units(Greedy(s, h, c)) == Identity(s, h, c)
    ensures |Greedy(s, h, c)| <= n <==> Coverable(s, h, c, n)
  {
    hide Greedy, IsTiling, Units, Identity;
    GreedyTiles(s, h, c);
    TilingMapsEveryUnit(Greedy(s, h, c), s, h, c);
    forall bs | IsTiling(bs, s, h, c) ensures |Greedy(s, h, c)| <= |bs| {
      GreedyIsShortest(bs, s, h, c);
    }
  }

  ghost predicate LargestPrefix(s: nat, h: nat, c: nat, n: nat, limit: nat) {
    limit <= c && Coverable(s, h, limit, n) && forall d :: limit < d <= c ==> !Coverable(s, h, d, n)
  }

  /**
   CapRange::limit_to: the longest prefix of the range that can be delegated with at most
   `freeTyped` items.
   */
  method LimitTo(r: CapRange, freeTyped: nat) returns (limit: nat)
    requires r.count < 0x8000_0000 && r.start + r.count <= WORD && Target(r) + r.count <= WORD
    ensures r.hotspot == NO_HOTSPOT ==> LargestPrefix(r.start, r.start, r.count, freeTyped, limit)
    ensures r.hotspot != NO_HOTSPOT ==> LargestPrefix(r.start, r.hotspot, r.count, freeTyped, limit)
  {
    var st: nat, hs: nat, c: nat, free: nat := r.start, Target(r), r.count, freeTyped;
    ghost var reach := Reach(st, hs, c, free);
    hide Reach, Greedy, Order, MinShift, Or, Pow2;
    while free > 0 && c > 0
      invariant st + c <= WORD && hs + c <= WORD && c <= r.count && free <= freeTyped
      invariant r.count - c + Reach(st, hs, c, free) == reach
    {
      Pow2Of32();
      MinShiftIsOrder(st, hs, c);
      ReachStep(st, hs, c, free);
      var minshift := MinShift(Or(st, hs), c);
      st := st + Pow2(minshift);
      hs := hs + Pow2(minshift);
      c := c - Pow2(minshift);
      free := free - 1;
    }
    limit := r.count - c;
    ReachOfNothing(st, hs, c, free);
    LimitIsLargest(r.start, Target(r), r.count, freeTyped);
  }

  lemma {:induction false} LimitIsLargest(s: nat, h: nat, c: nat, n: nat)
    ensures LargestPrefix(s, h, c, n, Reach(s, h, c, n))
  {
    hide Coverable, Reach, Greedy, IsTiling, Units, Identity;
    ReachIsLargest(s, h, c, n);
    forall d ensures Coverable(s, h, d, n) <==> |Greedy(s, h, d)| <= n { TilingExists(s, h, d, n); }
  }

  lemma {:induction false} ReachIsLargest(s: nat, h: nat, c: nat, n: nat)
    ensures var limit := Reach(s, h, c, n);
            && limit <= c && |Greedy(s, h, limit)| <= n
            && forall d :: limit < d <= c ==> |Greedy(s, h, d)| > n
  {
    hide *;
    var limit, all := Reach(s, h, c, n), Greedy(s, h, c);
    ReachOfPrefix(s, h, c, n);
    if n <= |all| {
      GreedyIsShortest(all[..n], s, h, limit);
    }
    forall d | limit < d <= c ensures |Greedy(s, h, d)| > n {
      GreedyTiles(s, h, d);
      StaysAhead(Greedy(s, h, d), s, h, d, c);
      if |Greedy(s, h, d)| <= n { ReachMonotone(s, h, c, |Greedy(s, h, d)|, n); }
    }
  }
}
