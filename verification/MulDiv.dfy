/**
 Math::muldiv128 (nre/include/util/Math.h) and the time conversions of Clock
 (nre/include/util/Clock.h) that are built on it. All values are unsigned 64-bit numbers.
 */
module MulDiv {
  import opened Bits

  /** The parts of the computation of value * factor / divisor fit their words. */
  predicate NothingLost(value: nat, factor: nat, divisor: nat)
    requires divisor > 0
  {
    && value / WORD * factor < U64
    && value / WORD * factor % divisor * WORD + value % WORD * factor < U64
  }

  /** Taking at least the divisor away lowers the quotient. */
  lemma {:induction false} QuotientDrops(t: nat, t': nat, d: nat)
    requires d > 0 && t' <= t
    ensures t' / d <= t / d
    ensures t' + d <= t ==> t' / d < t / d
  {
    var q, q' := t / d, t' / d;
    assert t' == q' * d + t' % d && t == q * d + t % d;
    assert (q' - q) * d == q' * d - q * d;
    assert q' - q >= 1 ==> (q' - q) * d >= d;
  }

  /** What the words cut off `value * factor` is a multiple of 2^64, and 0 only if all of it fits. */
  lemma {:induction false} Decomposed(value: nat, factor: nat, d: nat, k: nat, u: nat, i: nat, r: nat, m: nat, lower: nat)
    requires value / WORD * factor == k * U64 + u * d + i * WORD + r
    requires r * WORD + value % WORD * factor == m * U64 + lower
    requires r < WORD && lower < U64 && i * WORD + r < d && u * d + i * WORD + r < U64
    ensures value * factor == u * WORD * d + lower + (k * WORD + i + m) * U64
    ensures k * WORD + i + m == 0 <==> NothingLost(value, factor, d)
  {
    var high, low, b := value / WORD, value % WORD, value / WORD * factor;
    assert value == high * WORD + low;
    assert value * factor == b * WORD + low * factor;
    assert (k * U64 + u * d + i * WORD + r) * WORD == k * U64 * WORD + u * WORD * d + i * U64 + r * WORD;
    DivModUnique(b, U64, k, u * d + i * WORD + r);
    if k == 0 {
      DivModUnique(b, d, u, i * WORD + r);
      assert b % d * WORD + low * factor == (i + m) * U64 + lower;
    }
  }

  /** The quotient of the part that was not lost. */
  lemma {:induction false} QuotientOfRest(product: nat, d: nat, u: nat, lower: nat, lost: nat)
    requires 0 < d < U64 && product == u * WORD * d + lower + lost * U64
    ensures u * WORD + lower / d <= product / d
    ensures u * WORD + lower / d == product / d <==> lost == 0
  {
    var t := u * WORD * d + lower;
    assert t == (u * WORD + lower / d) * d + lower % d by {
      assert lower == lower / d * d + lower % d;
    }
    DivModUnique(t, d, u * WORD + lower / d, lower % d);
    QuotientDrops(product, t, d);
    assert lost > 0 ==> lost * U64 >= U64;
  }

  /** The words of the computation hold all of the product but a multiple of 2^64. */
  lemma {:induction false} Remainder(value: nat, factor: nat, d: nat, u: nat, r: nat, lower: nat) returns (lost: nat)
    requires d > 0 && u == value / WORD * factor % U64 / d && r == value / WORD * factor % U64 % d % WORD
    requires lower == (value % WORD * factor % U64 + r * WORD) % U64
    ensures value * factor == u * WORD * d + lower + lost * U64
    ensures lost == 0 <==> NothingLost(value, factor, d)
  {
    var b, a := value / WORD * factor, value % WORD * factor;
    var b', s := b % U64, a % U64 + r * WORD;
    var k, i, m := b / U64, b' % d / WORD, a / U64 + s / U64;
    Split(b, U64);
    Split(b', d);
    Split(b' % d, WORD);
    Split(a, U64);
    Split(s, U64);
    lost := k * WORD + i + m;
    Decomposed(value, factor, d, k, u, i, r, m, lower);
  }

  lemma {:induction false} Assembled(value: nat, factor: nat, d: nat, u: nat, r: nat, lower: nat)
    requires 0 < d < U64 && u == value / WORD * factor % U64 / d && r == value / WORD * factor % U64 % d % WORD
    requires lower == (value % WORD * factor % U64 + r * WORD) % U64
    ensures var q := value * factor / d;
            q < U64 ==> ((u * WORD % U64 + lower / d) % U64 == q <==> NothingLost(value, factor, d))
  {
    var lost := Remainder(value, factor, d, u, r, lower);
    Conclude(value * factor, d, u, lower, lost);
    hide NothingLost;
  }

  lemma {:induction false} Conclude(product: nat, d: nat, u: nat, lower: nat, lost: nat)
    requires 0 < d < U64 && product == u * WORD * d + lower + lost * U64
    ensures product / d < U64 ==> ((u * WORD % U64 + lower / d) % U64 == product / d <==> lost == 0)
  {
    QuotientOfRest(product, d, u, lower, lost);
    if product / d < U64 {
      NoCarry(u, lower / d, product / d);
    }
  }

  lemma {:induction false} NoCarry(u: nat, l: nat, q: nat)
    requires u * WORD + l <= q < U64
    ensures (u * WORD % U64 + l) % U64 == u * WORD + l
  {}

  lemma {:induction false} Split(x: nat, d: nat)
    requires d > 0
    ensures x == x / d * d + x % d && x % d < d
  {}

  /**
   muldiv128. When the quotient fits 64 bits, the result is exact if and only if nothing was
   lost on the way.
   */
  method MulDiv128(value: nat, factor: nat, divisor: nat) returns (res: nat)
    requires value < U64 && factor < U64 && 0 < divisor < U64
    ensures value * factor / divisor < U64 ==>
              (res == value * factor / divisor <==> NothingLost(value, factor, divisor))
  {
    var low, high := value % WORD, value / WORD;
    var lower := low * factor % U64;
    var upper := high * factor % U64;
    var rem := upper % divisor % WORD;
    upper := upper / divisor;
    lower := (lower + rem * WORD) % U64;
    Assembled(value, factor, divisor, upper, rem, lower);
    hide NothingLost;
    lower := lower / divisor;
    res := (upper * WORD % U64 + lower) % U64;
  }

  /** A bound a caller can check once for its two frequencies. */
  lemma {:induction false} SmallFactors(value: nat, factor: nat, divisor: nat)
    requires value < U64 && divisor > 0 && factor + divisor <= WORD
    ensures NothingLost(value, factor, divisor)
  {
    var high, low := value / WORD, value % WORD;
    var r := high * factor % divisor;
    MulLe(high, WORD - 1, factor);
    MulLe(low, WORD - 1, factor);
    SmallSums(high * factor, low * factor, r, factor, divisor);
  }

  lemma {:induction false} MulLe(a: nat, b: nat, c: nat)
    requires a <= b
    ensures a * c <= b * c
  {
    assert b * c == a * c + (b - a) * c && (b - a) * c >= 0;
  }

  lemma {:induction false} SmallSums(hf: nat, lf: nat, r: nat, factor: nat, divisor: nat)
    requires hf <= (WORD - 1) * factor && lf <= (WORD - 1) * factor && r < divisor && factor + divisor <= WORD
    ensures hf < U64 && r * WORD + lf < U64
  {}

  /** A muldiv128 that loses something: the factor fits 32 bits, the other values and the quotient 33. */
  lemma {:induction false} Lossy()
    ensures var v, f, d := 0x1_FFFF_FFFF, 0xFFFF_FFFF, 0x1_0000_0000;
            v * f / d < U64 && !NothingLost(v, f, d)
  {}

  // ---------------------------------------------------------------- clocks

  /** `x` ticks at frequency `freq`, in ticks at frequency `src`, rounded down. */
  function Ticks(x: nat, src: nat, freq: nat): (t: nat)
    requires freq > 0
  {
    x * src / freq
  }

  /** Converting to a clock that is not slower and back loses at most one tick. */
  lemma {:induction false} RoundTrip(x: nat, src: nat, freq: nat)
    requires 0 < freq <= src
    ensures x - 1 <= Ticks(Ticks(x, src, freq), freq, src) <= x
    ensures Ticks(Ticks(x, src, freq), freq, src) == x <==> x * src % freq == 0
  {
    var t := Ticks(x, src, freq);
    var r := x * src % freq;
    assert x * src == t * freq + r;
    if r == 0 {
      DivModUnique(t * freq, src, x, 0);
    } else {
      assert t * freq == (x - 1) * src + (src - r);
      DivModUnique(t * freq, src, x - 1, src - r);
    }
  }

  datatype Clock = Clock(srcFreq: nat, dstFreq: nat) {

    /** `now` plus `delta` ticks of frequency `freq`, in TSC ticks (wrapping at 64 bits). */
    method SourceTime(now: nat, delta: nat, freq: nat) returns (tsc: nat)
      requires now < U64 && delta < U64 && 0 < freq < U64 && srcFreq < U64
      ensures Ticks(delta, srcFreq, freq) < U64 && NothingLost(delta, srcFreq, freq) ==>
                tsc == (now + Ticks(delta, srcFreq, freq)) % U64
    {
      var ticks := MulDiv128(delta, srcFreq, freq);
      tsc := (now + ticks) % U64;
    }

    /** A TSC value in ticks of frequency `freq`; the inverse of SourceTime up to one tick. */
    method TimeOf(freq: nat, tsc: nat) returns (time: nat)
      requires tsc < U64 && freq < U64 && 0 < srcFreq < U64
      ensures Ticks(tsc, freq, srcFreq) < U64 && NothingLost(tsc, freq, srcFreq) ==> time == Ticks(tsc, freq, srcFreq)
      ensures srcFreq + freq <= WORD && 0 < freq <= srcFreq ==>
                forall x: nat :: x < U64 && Ticks(x, srcFreq, freq) == tsc ==> x - 1 <= time <= x
    {
      time := MulDiv128(tsc, freq, srcFreq);
      if srcFreq + freq <= WORD && 0 < freq <= srcFreq {
        SmallFactors(tsc, freq, srcFreq);
        forall x: nat | x < U64 && Ticks(x, srcFreq, freq) == tsc ensures x - 1 <= time <= x {
          RoundTrip(x, srcFreq, freq);
        }
      }
    }

    /** A TSC value in ticks of the clock's own frequency. */
    method DestTimeOf(tsc: nat) returns (time: nat)
      requires tsc < U64 && dstFreq < U64 && 0 < srcFreq < U64
      ensures Ticks(tsc, dstFreq, srcFreq) < U64 && NothingLost(tsc, dstFreq, srcFreq) ==>
                time == Ticks(tsc, dstFreq, srcFreq)
    {
      time := MulDiv128(tsc, dstFreq, srcFreq);
    }
  }
}
