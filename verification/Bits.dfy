/**
 Word arithmetic of nre/include/util/Math.h.

 A machine word is a natural number. The bitwise operators are defined bit by bit, by
 recursion on the halves of their operands, so that every fact about shifts, masks and
 scans below is an ordinary induction.
 */
module Bits {

  const WORD: nat := 0x1_0000_0000
  const U64: nat := 0x1_0000_0000_0000_0000

  function Pow2(n: nat): (p: nat)
    ensures p >= 1
  {
    if n == 0 then 1 else 2 * Pow2(n - 1)
  }

  function Min(a: nat, b: nat): nat {
    if a < b then a else b
  }

  /** The result of unsigned arithmetic on words. */
  function Word(x: int): nat {
    x % WORD
  }

  function Or(x: nat, y: nat): nat
    decreases x + y
  {
    if x == 0 && y == 0 then 0
    else 2 * Or(x / 2, y / 2) + (if x % 2 == 1 || y % 2 == 1 then 1 else 0)
  }

  function Xor(x: nat, y: nat): nat
    decreases x + y
  {
    if x == 0 && y == 0 then 0
    else 2 * Xor(x / 2, y / 2) + (if x % 2 != y % 2 then 1 else 0)
  }

  function And(x: nat, y: nat): nat
    decreases x + y
  {
    if x == 0 && y == 0 then 0
    else 2 * And(x / 2, y / 2) + (if x % 2 == 1 && y % 2 == 1 then 1 else 0)
  }

  /** Position of the least significant set bit (`bit_scan_forward`). */
  function BitScanForward(x: nat): nat
    requires x > 0
  {
    if x % 2 == 1 then 0 else 1 + BitScanForward(x / 2)
  }

  /** Position of the most significant set bit (`bit_scan_reverse`). */
  function BitScanReverse(x: nat): nat
    requires x > 0
  {
    if x == 1 then 0 else 1 + BitScanReverse(x / 2)
  }

  function PopCount(x: nat): nat {
    if x == 0 then 0 else x % 2 + PopCount(x / 2)
  }

  /** `minshift`: the order of a block at `start` no larger than `size`. */
  function MinShift(start: nat, size: nat): nat {
    OrPositive(start, Pow2(31));
    OrPositive(size, 1);
    Min(BitScanForward(Or(start, Pow2(31))), BitScanReverse(Or(size, 1)))
  }

  predicate IsPow2(x: nat) {
    And(x, if x == 0 then WORD - 1 else x - 1) == 0
  }

  function PrevPow2Shift(x: nat): nat {
    if x <= 1 then x
    else if !IsPow2(x) then Bsr1(x); (BitScanReverse(x) - 1) as nat
    else BitScanReverse(x)
  }

  function PrevPow2(x: nat): nat {
    Pow2(PrevPow2Shift(x))
  }

  /** `x` is a multiple of 2^k: its lowest k bits are clear. */
  predicate Aligned(x: nat, k: nat) {
    k == 0 || (x % 2 == 0 && Aligned(x / 2, k - 1))
  }

  /** The lowest k bits of `x`. */
  function Low(x: nat, k: nat): nat {
    if k == 0 then 0 else x % 2 + 2 * Low(x / 2, k - 1)
  }

  // ---------------------------------------------------------------- division by powers of two

  lemma {:induction false} DivModUnique(x: int, d: nat, q: int, r: nat)
    requires r < d && x == q * d + r
    ensures x / d == q && x % d == r
  {
    var e := x / d - q;
    assert e * d == r - x % d;
    assert e >= 1 ==> e * d >= d;
    assert e <= -1 ==> e * d <= 0 - d;
  }

  lemma {:induction false} ModHalf(x: nat, k: nat)
    requires k > 0
    ensures x % Pow2(k) == x % 2 + 2 * ((x / 2) % Pow2(k - 1))
    ensures x / Pow2(k) == (x / 2) / Pow2(k - 1)
  {
    var p, h := Pow2(k - 1), x / 2;
    var q, r := h / p, h % p;
    assert h == q * p + r;
    assert x == q * (2 * p) + (x % 2 + 2 * r);
    DivModUnique(x, 2 * p, q, x % 2 + 2 * r);
  }

  lemma {:induction false} Pow2Add(a: nat, b: nat)
    ensures Pow2(a + b) == Pow2(a) * Pow2(b)
  {
    if a > 0 {
      Pow2Add(a - 1, b);
      assert 2 * (Pow2(a - 1) * Pow2(b)) == (2 * Pow2(a - 1)) * Pow2(b);
    }
  }

  lemma {:induction false} Pow2Monotone(a: nat, b: nat)
    requires a <= b
    ensures Pow2(a) <= Pow2(b)
    ensures a < b ==> 2 * Pow2(a) <= Pow2(b)
  {
    if a < b { Pow2Monotone(a, b - 1); }
  }

  lemma {:induction false} LowIsRemainder(x: nat, k: nat)
    ensures Low(x, k) == x % Pow2(k) < Pow2(k)
    ensures Aligned(x, k) <==> x % Pow2(k) == 0
  {
    if k > 0 {
      ModHalf(x, k);
      LowIsRemainder(x / 2, k - 1);
    }
  }

  lemma {:induction false} LowBound(x: nat, k: nat)
    ensures Low(x, k) < Pow2(k)
    ensures Low(x, k) == 0 <==> Aligned(x, k)
    ensures x < Pow2(k) ==> Low(x, k) == x
  {
    if k > 0 { LowBound(x / 2, k - 1); }
  }

  /** A coarser alignment implies a finer one. */
  lemma {:induction false} AlignedWeaken(x: nat, j: nat, k: nat)
    requires j <= k && Aligned(x, k)
    ensures Aligned(x, j)
  {
    if j > 0 { AlignedWeaken(x / 2, j - 1, k - 1); }
  }

  lemma {:induction false} AlignedAdd(x: nat, y: nat, k: nat)
    requires Aligned(x, k)
    ensures Aligned(x + y, k) <==> Aligned(y, k)
    decreases k
  {
    if k > 0 {
      AlignedAdd(x / 2, y / 2, k - 1);
      assert (x + y) % 2 == 0 && y % 2 == 0 ==> (x + y) / 2 == x / 2 + y / 2;
    }
  }

  lemma {:induction false} AlignedPow2(j: nat, k: nat)
    requires k <= j
    ensures Aligned(Pow2(j), k)
  {
    if k > 0 {
      AlignedPow2(j - 1, k - 1);
      AlignedDouble(Pow2(j - 1), k - 1);
    }
  }

  lemma {:induction false} AlignedDouble(x: nat, k: nat)
    requires Aligned(x, k)
    ensures Aligned(2 * x, k + 1)
  {
    assert 2 * x / 2 == x;
  }

  lemma {:induction false} AlignedGap(x: nat, y: nat, k: nat)
    requires Aligned(x, k) && Aligned(y, k) && x < y
    ensures x + Pow2(k) <= y
  {
    if k > 0 { AlignedGap(x / 2, y / 2, k - 1); }
  }

  // ---------------------------------------------------------------- scans and operators

  lemma {:induction false} OrPositive(x: nat, y: nat)
    requires y > 0
    ensures Or(x, y) > 0
    decreases x + y
  {
    if y >= 2 { OrPositive(x / 2, y / 2); }
  }

  /** The lowest set bit is the alignment. */
  lemma {:induction false} ForwardIsAlignment(x: nat, k: nat)
    requires x > 0
    ensures k <= BitScanForward(x) <==> Aligned(x, k)
  {
    if k > 0 && x % 2 == 0 { ForwardIsAlignment(x / 2, k - 1); }
  }

  /** The highest set bit is the binary logarithm. */
  lemma {:induction false} ReverseIsLog(x: nat)
    requires x > 0
    ensures Pow2(BitScanReverse(x)) <= x < 2 * Pow2(BitScanReverse(x))
  {
    if x > 1 { ReverseIsLog(x / 2); }
  }

  lemma {:induction false} Bsr1(x: nat)
    requires x > 1
    ensures BitScanReverse(x) >= 1
  {}

  lemma {:induction false} OrAligned(x: nat, y: nat, k: nat)
    ensures Aligned(Or(x, y), k) <==> Aligned(x, k) && Aligned(y, k)
    decreases k
  {
    if k > 0 {
      OrAligned(x / 2, y / 2, k - 1);
      assert Or(x, y) / 2 == Or(x / 2, y / 2);
    }
  }

  /** The exclusive or is aligned exactly as far as its operands agree from below. */
  lemma {:induction false} XorAligned(x: nat, y: nat, k: nat)
    ensures Aligned(Xor(x, y), k) <==> Low(x, k) == Low(y, k)
    decreases k
  {
    if k > 0 {
      XorAligned(x / 2, y / 2, k - 1);
      assert Xor(x, y) / 2 == Xor(x / 2, y / 2);
    }
  }

  lemma {:induction false} XorZero(x: nat, y: nat)
    ensures Xor(x, y) == 0 <==> x == y
    decreases x + y
  {
    if x != 0 || y != 0 { XorZero(x / 2, y / 2); }
  }

  lemma {:induction false} AndUnfold(x: nat, m: nat)
    requires m > 0
    ensures And(x, m) == 2 * And(x / 2, m / 2) + (if m % 2 == 1 then x % 2 else 0)
  {}

  lemma {:induction false} AndDigit(x: nat, m: nat)
    ensures And(x, 2 * m + 1) == 2 * And(x / 2, m) + x % 2
    ensures And(x, 2 * m) == 2 * And(x / 2, m)
  {
    hide And;
    AndUnfold(x, 2 * m + 1);
    if m > 0 { AndUnfold(x, 2 * m); } else { AndZero(x); AndZero(x / 2); }
  }

  lemma {:induction false} AndLow(x: nat, k: nat)
    ensures And(x, Pow2(k) - 1) == Low(x, k)
    decreases k
  {
    hide And;
    if k == 0 {
      AndZero(x);
    } else {
      AndLow(x / 2, k - 1);
      AndDigit(x, Pow2(k - 1) - 1);
    }
  }

  /** Masking with 2^k - 1 is the remainder: `x & (max - 1)` wraps an index. */
  lemma {:induction false} AndMask(x: nat, k: nat)
    ensures And(x, Pow2(k) - 1) == x % Pow2(k)
  {
    AndLow(x, k);
    LowIsRemainder(x, k);
    hide *;
  }

  /** Masking with the digits from `k` on, as in `x & ~(align - 1)`, clears the lowest k digits. */
  lemma {:induction false} AndHigh(x: nat, n: nat, k: nat)
    requires k <= n && x < Pow2(n)
    ensures Pow2(k) <= Pow2(n) && And(x, Pow2(n) - Pow2(k)) == x - Low(x, k)
    decreases k
  {
    hide And;
    Pow2Monotone(k, n);
    if k == 0 {
      AndLow(x, n);
      LowBound(x, n);
    } else {
      AndHigh(x / 2, n - 1, k - 1);
      AndDigit(x, Pow2(n - 1) - Pow2(k - 1));
    }
  }

  lemma {:induction false} AndZero(x: nat)
    ensures And(x, 0) == 0
  {
    if x > 0 { AndZero(x / 2); }
  }

  lemma {:induction false} OrOne(x: nat)
    ensures Or(x, 1) == if x % 2 == 1 then x else x + 1
  {
    assert x / 2 >= 0 && Or(x, 1) == 2 * Or(x / 2, 0) + 1;
    OrZero(x / 2);
  }

  lemma {:induction false} OrZero(x: nat)
    ensures Or(x, 0) == x
  {
    if x > 0 { OrZero(x / 2); }
  }

  lemma {:induction false} WordIs(x: int)
    requires 0 <= x + WORD && x < 2 * WORD
    ensures Word(x) == if x < 0 then x + WORD else if x < WORD then x else x - WORD
  {}

  lemma {:induction false} Pow2Of31()
    ensures Pow2(31) == 0x8000_0000
  {
    assert Pow2(8) == 256;
    Pow2Add(8, 8);
    assert Pow2(16) == 65536;
    assert Pow2(7) == 128;
    Pow2Add(8, 7);
    Pow2Add(16, 15);
  }

  lemma {:induction false} Pow2Of32()
    ensures Pow2(32) == WORD
  {
    Pow2Of31();
    Pow2Double(31);
    hide Pow2;
  }

  /** Setting bit `top` caps the alignment of `start` at `top`. */
  lemma {:induction false} ForwardOfStart(start: nat, top: nat, j: nat)
    ensures Or(start, Pow2(top)) > 0
    ensures j <= BitScanForward(Or(start, Pow2(top))) <==> j <= top && Aligned(start, j)
  {
    OrPositive(start, Pow2(top));
    ForwardIsAlignment(Or(start, Pow2(top)), j);
    OrAligned(start, Pow2(top), j);
    if j <= top {
      AlignedPow2(top, j);
    } else {
      Pow2Monotone(top, j);
      LowBound(Pow2(top), j);
    }
  }

  lemma {:induction false} ReverseOfSize(size: nat, j: nat)
    requires size > 0
    ensures Or(size, 1) > 0
    ensures j <= BitScanReverse(Or(size, 1)) <==> Pow2(j) <= size
  {
    hide *;
    OrPositive(size, 1);
    OrOne(size);
    ReverseIsLog(Or(size, 1));
    var r := BitScanReverse(Or(size, 1));
    if j == 0 {
      Pow2OfZero();
    } else {
      Pow2Double(j - 1);
      if j <= r {
        Pow2Monotone(j, r);
      } else {
        Pow2Double(r);
        Pow2Monotone(r + 1, j);
      }
      EvenBelow(Pow2(j - 1), size);
    }
  }

  lemma {:induction false} EvenBelow(h: nat, x: nat)
    ensures 2 * h <= (if x % 2 == 1 then x else x + 1) <==> 2 * h <= x
  {}

  lemma {:induction false} Pow2OfZero()
    ensures Pow2(0) == 1
  {}

  lemma {:induction false} Pow2Double(k: nat)
    ensures Pow2(k + 1) == 2 * Pow2(k)
  {}

  /**
   What `minshift` promises: among the orders below 32 it is the largest one whose block
   both is naturally aligned at `start` and fits into `size`.
   */
  lemma {:induction false} MinShiftIsLargest(start: nat, size: nat, j: nat)
    requires size > 0
    ensures j <= MinShift(start, size) <==> j <= 31 && Aligned(start, j) && Pow2(j) <= size
  {
    ForwardOfStart(start, 31, j);
    ReverseOfSize(size, j);
  }

  // ---------------------------------------------------------------- powers of two

  /** `is_pow2` recognises 0 and the powers of two. */
  lemma {:induction false} IsPow2Exactly(x: nat)
    ensures IsPow2(x) <==> x == 0 || x == Pow2(BitScanReverse(x))
  {
    if x == 0 {
      AndZeroWord();
    } else if x > 1 {
      AndPred(x);
      Pow2Of(x);
      if x % 2 == 0 { IsPow2Exactly(x / 2); }
      hide And, Pow2, BitScanReverse;
    }
  }

  lemma {:induction false} AndZeroWord()
    ensures And(0, WORD - 1) == 0
  {
    AndComm(0, WORD - 1);
    AndZero(WORD - 1);
  }

  lemma {:induction false} AndComm(x: nat, y: nat)
    ensures And(x, y) == And(y, x)
    decreases x + y
  {
    if x != 0 || y != 0 { AndComm(x / 2, y / 2); }
  }

  /** Clearing the lowest set bit, one digit at a time. */
  lemma {:induction false} AndPred(x: nat)
    requires x > 1
    ensures And(x, x - 1) == 2 * (if x % 2 == 0 then And(x / 2, x / 2 - 1) else x / 2)
  {
    var y := x - 1;
    assert x % 2 == 0 ==> y / 2 == x / 2 - 1;
    assert x % 2 == 1 ==> y / 2 == x / 2;
    AndSelf(x / 2);
  }

  lemma {:induction false} Pow2Of(x: nat)
    requires x > 1
    ensures x == Pow2(BitScanReverse(x)) <==> x % 2 == 0 && x / 2 == Pow2(BitScanReverse(x / 2))
  {
    assert BitScanReverse(x) == 1 + BitScanReverse(x / 2);
    Pow2Double(BitScanReverse(x / 2));
    hide Pow2, BitScanReverse;
  }

  lemma {:induction false} AndSelf(x: nat)
    ensures And(x, x) == x
  {
    if x > 0 { AndSelf(x / 2); }
  }

  /**
   `prev_pow2` is documented to round down to the previous power of two. It does so exactly
   on the powers of two above 1: everything else comes out halved, except that 0 gives 1
   and 1 gives 2.
   */
  lemma {:induction false} PrevPow2RoundsDown(x: nat)
    ensures PrevPow2(x) <= x < 2 * PrevPow2(x) <==> x >= 2 && IsPow2(x)
    ensures x >= 2 ==> PrevPow2(x) <= x < 4 * PrevPow2(x)
    ensures x == 0 ==> PrevPow2(x) == 1
    ensures x == 1 ==> PrevPow2(x) == 2
  {
    if x >= 2 {
      ReverseIsLog(x);
      IsPow2Exactly(x);
      Bsr1(x);
    } else {
      assert Pow2(0) == 1 && Pow2(1) == 2;
    }
  }
}
