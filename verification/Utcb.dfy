/**
 The copying UTCB (nre/include/utcb/UtcbCopy.h) and the frames on it
 (nre/include/utcb/UtcbFrame.h), for 32-bit words.

 One page holds the current frame (head and untyped items from the bottom, typed items from the
 top) and, around the word POS in the middle, two stacks with the saved frames: untyped parts
 grow downwards, typed parts upwards. The word POS packs the sizes of both stacks and the layer.
 */
module Utcb {
  import opened Bits

  const WORDS: nat := 1024
  const HEAD: nat := 5                    // words of the head: bounds, mtr, two windows, reserved
  const MTR: nat := 1
  const XLT: nat := 2                     // crd_translate
  const DEL: nat := 3                     // crd
  const POS: nat := 514                   // index of msg[POS_SLOT]
  const POS_SLOT: nat := 509
  const TYPED_SLOTS: nat := 509           // SLOTS - POS_SLOT - 1

  // ---------------------------------------------------------------- the packed word

  function UntypedCount(w: nat): nat { w % 0x1000 }

  function Layer(w: nat): nat { w / 0x1000 % 0x10 }

  function TypedCount(w: nat): nat { w / 0x1_0000 }

  /** (w & 0xFFFFF000) | v */
  function SetUntyped(w: nat, v: nat): nat { Or(w / 0x1000 * 0x1000, v) }

  /** (w & 0x0000FFFF) | v << 16 */
  function SetTyped(w: nat, v: nat): nat { Or(v * 0x1_0000, w % 0x1_0000) }

  /** (w & 0xFFFF0FFF) | v << 12 */
  function SetLayer(w: nat, v: nat): nat { Or(w / 0x1_0000 * 0x1_0000 + w % 0x1000, v * 0x1000) }

  lemma {:induction false} OrDisjoint(a: nat, b: nat, k: nat)
    requires Aligned(a, k) && b < Pow2(k)
    ensures Or(a, b) == a + b
    decreases k
  {
    if k == 0 {
      OrZero(a);
    } else {
      OrDisjoint(a / 2, b / 2, k - 1);
    }
  }

  lemma {:induction false} OrMiddle(a: nat, b: nat, c: nat, j: nat, k: nat)
    requires Aligned(a, j + k) && b < Pow2(j) && c < Pow2(k)
    ensures Or(a + c, b * Pow2(k)) == a + b * Pow2(k) + c
    decreases k
  {
    if k == 0 {
      OrDisjoint(a, b, j);
    } else {
      assert b * Pow2(k) == 2 * (b * Pow2(k - 1));
      OrMiddle(a / 2, b, c / 2, j, k - 1);
      assert (a + c) / 2 == a / 2 + c / 2;
    }
  }

  lemma {:induction false} AlignedMultiple(q: nat, k: nat)
    ensures Aligned(q * Pow2(k), k)
  {
    if k > 0 {
      AlignedMultiple(q, k - 1);
      assert q * Pow2(k) == 2 * (q * Pow2(k - 1));
    }
  }

  function Pack(t: nat, l: nat, u: nat): nat { t * 0x1_0000 + l * 0x1000 + u }

  lemma {:induction false} Unpack(t: nat, l: nat, u: nat)
    requires l < 0x10 && u < 0x1000
    ensures var w := Pack(t, l, u); TypedCount(w) == t && Layer(w) == l && UntypedCount(w) == u
  {
    var w := Pack(t, l, u);
    assert w / 0x1000 == t * 0x10 + l;
  }

  lemma {:induction false} Repack(w: nat)
    ensures w == Pack(TypedCount(w), Layer(w), UntypedCount(w))
    ensures w % 0x1_0000 == Layer(w) * 0x1000 + UntypedCount(w)
    ensures w / 0x1000 == TypedCount(w) * 0x10 + Layer(w)
  {
    assert w / 0x1000 / 0x10 == w / 0x1_0000;
  }

  /** Each counter can be set without disturbing the other two. */
  lemma {:induction false} PackedCounters(w: nat, v: nat)
    ensures v < 0x1000 ==> SetUntyped(w, v) == Pack(TypedCount(w), Layer(w), v)
    ensures SetTyped(w, v) == Pack(v, Layer(w), UntypedCount(w))
    ensures v < 0x10 ==> SetLayer(w, v) == Pack(TypedCount(w), v, UntypedCount(w))
  {
    hide Or;
    Repack(w);
    if v < 0x1000 { OrField(w / 0x1000, v, 12, 0x1000); }
    OrField(v, w % 0x1_0000, 16, 0x1_0000);
    if v < 0x10 { OrLayer(w / 0x1_0000, v, w % 0x1000); }
  }

  /** A field below a multiple of its size. */
  lemma {:induction false} OrField(q: nat, v: nat, k: nat, p: nat)
    requires (k == 12 && p == 0x1000) || (k == 16 && p == 0x1_0000)
    requires v < p
    ensures Or(q * p, v) == q * p + v
  {
    hide *;
    SmallPowers();
    AlignedMultiple(q, k);
    OrDisjoint(q * p, v, k);
  }

  lemma {:induction false} OrLayer(q: nat, v: nat, c: nat)
    requires v < 0x10 && c < 0x1000
    ensures Or(q * 0x1_0000 + c, v * 0x1000) == q * 0x1_0000 + v * 0x1000 + c
  {
    hide *;
    SmallPowers();
    AlignedMultiple(q, 16);
    OrMiddle(q * 0x1_0000, v, c, 4, 12);
  }

  lemma {:induction false} SmallPowers()
    ensures Pow2(4) == 0x10 && Pow2(12) == 0x1000 && Pow2(16) == 0x1_0000
  {
    assert Pow2(4) == 16 && Pow2(8) == 256;
    Pow2Add(8, 4);
    Pow2Add(8, 8);
  }

  // ---------------------------------------------------------------- frames and their layout

  /** `typed` holds the words of the typed items in memory order, two per item. */
  datatype Frame = Frame(head: seq<nat>, untyped: seq<nat>, typed: seq<nat>)

  function Mtr(f: Frame): nat {
    |f.typed| / 2 * 0x1_0000 + |f.untyped|
  }

  predicate FrameOk(f: Frame) {
    |f.head| == HEAD && |f.untyped| < 0x1_0000 && |f.typed| % 2 == 0 && f.head[MTR] == Mtr(f)
  }

  /** The stack of saved untyped parts as it lies in memory, the topmost frame first. */
  function LowStack(fs: seq<Frame>): seq<nat> {
    if fs == [] then []
    else
      var f := fs[|fs| - 1];
      [|f.head + f.untyped|] + (f.head + f.untyped) + LowStack(fs[..|fs| - 1])
  }

  /** The stack of saved typed parts, the topmost frame last. */
  function HighStack(fs: seq<Frame>): seq<nat> {
    if fs == [] then []
    else
      var f := fs[|fs| - 1];
      HighStack(fs[..|fs| - 1]) + f.typed + [|f.typed|]
  }

  /** There is room to save frame `f` on top of `fs` without touching what is copied. */
  predicate RoomFor(f: Frame, fs: seq<Frame>) {
    && 2 * |f.head + f.untyped| + 1 + |LowStack(fs)| <= POS
    && 2 * |f.typed| + 1 + |HighStack(fs)| <= TYPED_SLOTS
  }

  predicate Saved(fs: seq<Frame>) {
    fs != [] ==>
      Saved(fs[..|fs| - 1]) && FrameOk(fs[|fs| - 1]) && RoomFor(fs[|fs| - 1], fs[..|fs| - 1])
  }

  /** The current frame: head and untyped items at the bottom, typed items at the top of the page. */
  ghost predicate CurrentAt(p: seq<nat>, cur: Frame) {
    && |p| == WORDS && FrameOk(cur) && HEAD + |cur.untyped| <= POS && POS + 1 + |cur.typed| <= WORDS
    && p[..HEAD + |cur.untyped|] == cur.head + cur.untyped
    && p[WORDS - |cur.typed|..] == cur.typed
  }

  /** The saved frames: two stacks below and above the word POS. */
  ghost predicate StacksAt(p: seq<nat>, fs: seq<Frame>) {
    && |p| == WORDS && Saved(fs) && |LowStack(fs)| <= POS && POS + 1 + |HighStack(fs)| <= WORDS
    && p[POS - |LowStack(fs)|..POS] == LowStack(fs)
    && p[POS + 1..POS + 1 + |HighStack(fs)|] == HighStack(fs)
  }

  /** The page holds `cur` as current frame and `fs` as saved frames, and they do not meet. */
  ghost predicate PageOk(p: seq<nat>, cur: Frame, fs: seq<Frame>, layer: nat) {
    var uc, tc := |LowStack(fs)|, |HighStack(fs)|;
    && CurrentAt(p, cur) && StacksAt(p, fs) && layer < 0x10
    && HEAD + |cur.untyped| + uc <= POS && POS + 1 + tc + |cur.typed| <= WORDS
    && p[POS] == Pack(tc, layer, uc)
  }

  lemma {:induction false} StackPush(fs: seq<Frame>, f: Frame)
    ensures LowStack(fs + [f]) == [|f.head + f.untyped|] + (f.head + f.untyped) + LowStack(fs)
    ensures HighStack(fs + [f]) == HighStack(fs) + f.typed + [|f.typed|]
    ensures Saved(fs + [f]) <==> Saved(fs) && FrameOk(f) && RoomFor(f, fs)
  {
    assert (fs + [f])[..|fs|] == fs;
  }

  /** The frame reset() leaves. */
  function Cleared(head: seq<nat>): Frame
    requires |head| == HEAD
  {
    Frame(head[MTR := 0][XLT := 0][DEL := 0], [], [])
  }

  lemma {:induction false} Parts(s: seq<nat>, a: seq<nat>, b: seq<nat>, c: seq<nat>)
    requires s == a + b + c
    ensures s[..|a|] == a && s[|a|..|a| + |b|] == b && s[|a| + |b|..] == c
  {}

  lemma {:induction false} Join(p: seq<nat>, i: nat, j: nat, k: nat, l: nat)
    requires i <= j <= k <= l <= |p|
    ensures p[i..l] == p[i..j] + p[j..k] + p[k..l]
  {}

  lemma {:induction false} Within(p: seq<nat>, i: nat, l: nat, j: nat, k: nat)
    requires i <= j <= k <= l <= |p|
    ensures p[i..l][j - i..k - i] == p[j..k]
  {
    var q := p[i..l];
    var r, t := q[j - i..k - i], p[j..k];
    assert forall x :: 0 <= x < |r| ==> r[x] == t[x];
  }

  /** The effect of the copies of push(): `n` words below `ut`, `m` words from `t` on, with their lengths. */
  predicate CopiedOut(p: seq<nat>, q: seq<nat>, n: nat, m: nat, ut: nat, t: nat)
    requires |p| == WORDS && 2 * n + 1 <= ut <= POS < t && t + 2 * m + 1 <= WORDS
  {
    && |q| == WORDS
    && q[ut - n - 1] == n && q[ut - n..ut] == p[..n] && q[t..t + m] == p[WORDS - m..] && q[t + m] == m
    && q[..n] == p[..n] && q[ut..t] == p[ut..t] && q[WORDS - m..] == p[WORDS - m..]
  }

  /** The effect of the copies of pop(). */
  predicate CopiedIn(p: seq<nat>, q: seq<nat>, n: nat, m: nat, ut: nat, t: nat)
    requires |p| == WORDS && n <= ut && ut + 1 + n <= POS && POS + 1 + m + 1 <= t && t + m <= WORDS
  {
    && |q| == WORDS
    && q[..n] == p[ut + 1..ut + 1 + n] && q[WORDS - m..] == p[t - m - 1..t - 1]
    && q[ut + 1 + n..t - m - 1] == p[ut + 1 + n..t - m - 1]
  }

  /** The lower copy of push(), and the length it stores. */
  predicate LowOut(p: seq<nat>, q: seq<nat>, n: nat, ut: nat) {
    && |p| == |q| == WORDS && 2 * n + 1 <= ut <= POS
    && q[ut - n - 1] == n && q[ut - n..ut] == p[..n] && q[..n] == p[..n] && q[ut..] == p[ut..]
  }

  /** The upper copy of push(), and the length it stores. */
  predicate HighOut(p: seq<nat>, q: seq<nat>, m: nat, t: nat) {
    && |p| == |q| == WORDS && POS < t && t + 2 * m + 1 <= WORDS
    && q[t..t + m] == p[WORDS - m..] && q[t + m] == m && q[..t] == p[..t] && q[WORDS - m..] == p[WORDS - m..]
  }

  lemma {:induction false} SliceOf(p: seq<nat>, q: seq<nat>, l: nat, h: nat, i: nat, j: nat)
    requires l <= i <= j <= h <= |p| && |p| == |q| && p[l..h] == q[l..h]
    ensures p[i..j] == q[i..j]
  {
    Within(p, l, h, i, j);
    Within(q, l, h, i, j);
  }

  lemma {:induction false} BothOut(p: seq<nat>, q: seq<nat>, r: seq<nat>, n: nat, m: nat, ut: nat, t: nat)
    requires LowOut(p, q, n, ut) && HighOut(q, r, m, t)
    ensures CopiedOut(p, r, n, m, ut, t)
  {
    SliceOf(q, r, 0, t, ut - n, ut);
    SliceOf(q, r, 0, t, 0, n);
    SliceOf(q, r, 0, t, ut, t);
    SliceOf(p, q, ut, WORDS, ut, t);
    SliceOf(p, q, ut, WORDS, WORDS - m, WORDS);
    assert r[ut - n - 1] == r[..t][ut - n - 1] == q[ut - n - 1];
  }

  lemma {:induction false} LowGrows(p: seq<nat>, ut: nat, f: Frame, fs: seq<Frame>)
    requires var n := |f.head + f.untyped|;
             && n < ut <= POS <= |p| && p[ut..POS] == LowStack(fs)
             && p[ut - n - 1] == n && p[ut - n..ut] == f.head + f.untyped
    ensures p[ut - |f.head + f.untyped| - 1..POS] == LowStack(fs + [f])
  {
    hide LowStack, Saved, HighStack;
    StackPush(fs, f);
    var n := |f.head + f.untyped|;
    Join(p, ut - n - 1, ut - n, ut, POS);
    assert p[ut - n - 1..ut - n] == [n];
  }

  lemma {:induction false} HighGrows(p: seq<nat>, t: nat, f: Frame, fs: seq<Frame>)
    requires var m := |f.typed|;
             && POS < t < t + m + 1 <= |p| && p[POS + 1..t] == HighStack(fs)
             && p[t..t + m] == f.typed && p[t + m] == m
    ensures p[POS + 1..t + |f.typed| + 1] == HighStack(fs + [f])
  {
    hide LowStack, Saved, HighStack;
    StackPush(fs, f);
    var m := |f.typed|;
    Join(p, POS + 1, t, t + m, t + m + 1);
    assert p[t + m..t + m + 1] == [m];
  }

  /** After both copies (`p1`) and the counter update, the current frame is also the topmost saved one. */
  lemma {:induction false} PushLayout(p: seq<nat>, q: seq<nat>, cur: Frame, fs: seq<Frame>, layer: nat)
    requires PageOk(p, cur, fs, layer) && RoomFor(cur, fs)
    requires |q| == WORDS && CopiedOut(p, q, |cur.head + cur.untyped|, |cur.typed|, POS - |LowStack(fs)|, POS + 1 + |HighStack(fs)|)
    ensures var n, m, uc, tc := |cur.head + cur.untyped|, |cur.typed|, |LowStack(fs)|, |HighStack(fs)|;
            q[POS] == p[POS] && PageOk(q[POS := Pack(tc + m + 1, layer, uc + n + 1)], cur, fs + [cur], layer)
  {
    hide LowStack, HighStack, Saved, Pack, CopiedOut, PageOk, FrameOk, CurrentAt, OutAt, StacksAt, RoomFor;
    var n, m, uc, tc := |cur.head + cur.untyped|, |cur.typed|, |LowStack(fs)|, |HighStack(fs)|;
    var x := Pack(tc + m + 1, layer, uc + n + 1);
    PushCopied(p, q, cur, fs, layer, x);
    PushStacks(q[POS := x], cur, fs);
    PageFrom(q[POS := x], cur, fs + [cur], layer);
  }

  /** Frame `f` lies next to the stacks of `fs`, with its lengths. */
  ghost predicate OutAt(r: seq<nat>, f: Frame, fs: seq<Frame>) {
    var n, m, ut, t := |f.head + f.untyped|, |f.typed|, POS - |LowStack(fs)|, POS + 1 + |HighStack(fs)|;
    && |r| == WORDS && 2 * n + 1 <= ut && t + 2 * m + 1 <= WORDS
    && r[ut..POS] == LowStack(fs) && r[POS + 1..t] == HighStack(fs)
    && r[ut - n - 1] == n && r[ut - n..ut] == f.head + f.untyped && r[t..t + m] == f.typed && r[t + m] == m
  }

  lemma {:induction false} PushCopied(p: seq<nat>, q: seq<nat>, cur: Frame, fs: seq<Frame>, layer: nat, x: nat)
    requires PageOk(p, cur, fs, layer) && RoomFor(cur, fs)
    requires |q| == WORDS && CopiedOut(p, q, |cur.head + cur.untyped|, |cur.typed|, POS - |LowStack(fs)|, POS + 1 + |HighStack(fs)|)
    ensures Saved(fs) && layer < 0x10 && q[POS] == p[POS]
    ensures CurrentAt(q[POS := x], cur) && OutAt(q[POS := x], cur, fs)
  {
    hide LowStack, HighStack, Saved, Pack, CopiedOut, PageOk, FrameOk;
    PageParts(p, cur, fs, layer);
    PushPieces(p, q, |cur.head + cur.untyped|, |cur.typed|, POS - |LowStack(fs)|, POS + 1 + |HighStack(fs)|, x);
  }

  /** A frame copied out next to the stacks is their new top. */
  lemma {:induction false} PushStacks(r: seq<nat>, f: Frame, fs: seq<Frame>)
    requires Saved(fs) && CurrentAt(r, f) && RoomFor(f, fs) && OutAt(r, f, fs)
    ensures var fs', n, m := fs + [f], |f.head + f.untyped|, |f.typed|;
            && StacksAt(r, fs') && |LowStack(fs')| == |LowStack(fs)| + n + 1 && |HighStack(fs')| == |HighStack(fs)| + m + 1
            && HEAD + |f.untyped| + |LowStack(fs')| <= POS && POS + 1 + |HighStack(fs')| + |f.typed| <= WORDS
  {
    hide LowStack, HighStack, Saved, FrameOk, RoomFor;
    LowGrows(r, POS - |LowStack(fs)|, f, fs);
    HighGrows(r, POS + 1 + |HighStack(fs)|, f, fs);
    StackPush(fs, f);
    assert |f.head + f.untyped| == HEAD + |f.untyped| by { HeadLength(r, f); }
  }

  lemma {:induction false} HeadLength(r: seq<nat>, f: Frame)
    requires CurrentAt(r, f)
    ensures |f.head| == HEAD && |f.head + f.untyped| == HEAD + |f.untyped|
  {}

  /** How much of the page is in use. */
  lemma {:induction false} PageBounds(p: seq<nat>, f: Frame, fs: seq<Frame>, layer: nat)
    requires PageOk(p, f, fs, layer)
    ensures |p| == WORDS && |f.head| == HEAD && |f.head + f.untyped| == HEAD + |f.untyped|
    ensures HEAD + |f.untyped| + |LowStack(fs)| <= POS && POS + 1 + |HighStack(fs)| + |f.typed| <= WORDS
  {
    PageParts(p, f, fs, layer);
    hide *;
  }

  lemma {:induction false} PageParts(p: seq<nat>, f: Frame, fs: seq<Frame>, layer: nat)
    requires PageOk(p, f, fs, layer)
    ensures |p| == WORDS && FrameOk(f) && Saved(fs) && layer < 0x10
    ensures |f.head| == HEAD && |f.head + f.untyped| == HEAD + |f.untyped|
    ensures HEAD + |f.untyped| + |LowStack(fs)| <= POS && POS + 1 + |HighStack(fs)| + |f.typed| <= WORDS
    ensures p[..HEAD + |f.untyped|] == f.head + f.untyped && p[WORDS - |f.typed|..] == f.typed
    ensures p[POS - |LowStack(fs)|..POS] == LowStack(fs)
    ensures p[POS + 1..POS + 1 + |HighStack(fs)|] == HighStack(fs)
  {
    hide LowStack, HighStack, Saved, Pack;
  }

  lemma {:induction false} PushPieces(p: seq<nat>, q: seq<nat>, n: nat, m: nat, ut: nat, t: nat, x: nat)
    requires |p| == WORDS && 2 * n + 1 <= ut <= POS < t && t + 2 * m + 1 <= WORDS
    requires CopiedOut(p, q, n, m, ut, t)
    ensures |q| == WORDS && q[POS] == p[POS]
    ensures var r := q[POS := x];
            && r[ut - n - 1] == n && r[ut - n..ut] == p[..n] && r[ut..POS] == p[ut..POS]
            && r[t..t + m] == p[WORDS - m..] && r[t + m] == m && r[POS + 1..t] == p[POS + 1..t]
            && r[..n] == p[..n] && r[WORDS - m..] == p[WORDS - m..]
  {
    var r := q[POS := x];
    Middle(p, q, ut, t);
    assert r[ut..POS] == q[ut..POS] && r[POS + 1..t] == q[POS + 1..t];
    assert r[ut - n..ut] == q[ut - n..ut] && r[t..t + m] == q[t..t + m];
    assert r[..n] == q[..n] && r[WORDS - m..] == q[WORDS - m..];
  }

  lemma {:induction false} Middle(p: seq<nat>, q: seq<nat>, lo: nat, hi: nat)
    requires |p| == |q| && lo <= POS < hi <= |p| && q[lo..hi] == p[lo..hi]
    ensures q[lo..POS] == p[lo..POS] && q[POS] == p[POS] && q[POS + 1..hi] == p[POS + 1..hi]
  {
    Within(p, lo, hi, lo, POS);
    Within(q, lo, hi, lo, POS);
    Within(p, lo, hi, POS + 1, hi);
    Within(q, lo, hi, POS + 1, hi);
    assert p[POS] == p[lo..hi][POS - lo] && q[POS] == q[lo..hi][POS - lo];
  }

  lemma {:induction false} LowTop(p: seq<nat>, lo: nat, fs: seq<Frame>)
    requires lo <= POS < |p| && fs != [] && p[lo..POS] == LowStack(fs)
    ensures var f, rest := fs[|fs| - 1], fs[..|fs| - 1];
            var n := |f.head + f.untyped|;
            && lo + 1 + n + |LowStack(rest)| == POS && p[lo] == n
            && p[lo + 1..lo + 1 + n] == f.head + f.untyped && p[lo + 1 + n..POS] == LowStack(rest)
  {
    hide LowStack, HighStack, Saved;
    var f, rest := fs[|fs| - 1], fs[..|fs| - 1];
    assert fs == rest + [f];
    StackPush(rest, f);
    CutLow(p, lo, f.head + f.untyped, LowStack(rest));
  }

  lemma {:induction false} CutLow(p: seq<nat>, lo: nat, a: seq<nat>, b: seq<nat>)
    requires lo <= POS < |p| && p[lo..POS] == [|a|] + a + b
    ensures lo + 1 + |a| + |b| == POS && p[lo] == |a| && p[lo + 1..lo + 1 + |a|] == a && p[lo + 1 + |a|..POS] == b
  {
    Parts(p[lo..POS], [|a|], a, b);
    Within(p, lo, POS, lo + 1, lo + 1 + |a|);
    Within(p, lo, POS, lo + 1 + |a|, POS);
    assert p[lo] == p[lo..POS][0];
  }

  lemma {:induction false} HighTop(p: seq<nat>, hi: nat, fs: seq<Frame>)
    requires POS < hi <= |p| && fs != [] && p[POS + 1..hi] == HighStack(fs)
    ensures var f, rest := fs[|fs| - 1], fs[..|fs| - 1];
            var m := |f.typed|;
            && POS + 1 + |HighStack(rest)| + m + 1 == hi && p[hi - 1] == m
            && p[hi - 1 - m..hi - 1] == f.typed && p[POS + 1..hi - 1 - m] == HighStack(rest)
  {
    hide LowStack, HighStack, Saved;
    var f, rest := fs[|fs| - 1], fs[..|fs| - 1];
    assert fs == rest + [f];
    StackPush(rest, f);
    CutHigh(p, hi, HighStack(rest), f.typed);
  }

  lemma {:induction false} CutHigh(p: seq<nat>, hi: nat, a: seq<nat>, b: seq<nat>)
    requires POS < hi <= |p| && p[POS + 1..hi] == a + b + [|b|]
    ensures POS + 1 + |a| + |b| + 1 == hi && p[hi - 1] == |b|
    ensures p[hi - 1 - |b|..hi - 1] == b && p[POS + 1..hi - 1 - |b|] == a
  {
    Parts(p[POS + 1..hi], a, b, [|b|]);
    Within(p, POS + 1, hi, POS + 1, hi - 1 - |b|);
    Within(p, POS + 1, hi, hi - 1 - |b|, hi - 1);
    assert p[hi - 1] == p[POS + 1..hi][hi - POS - 2];
  }

  /** The bounds the copies of push() need. */
  lemma {:induction false} PushBounds(p: seq<nat>, cur: Frame, fs: seq<Frame>, layer: nat)
    requires PageOk(p, cur, fs, layer) && RoomFor(cur, fs)
    ensures var n, m, uc, tc := |cur.head + cur.untyped|, |cur.typed|, |LowStack(fs)|, |HighStack(fs)|;
            && n == HEAD + |cur.untyped| && 2 * n + 1 + uc <= POS && POS + 1 + tc + 2 * m + 1 <= WORDS
  {
    hide LowStack, HighStack, Saved;
  }

  /** `uc`, `tc` are the stack sizes, `n`, `m` the lengths recorded for the topmost saved frame. */
  ghost predicate TopIs(fs: seq<Frame>, n: nat, m: nat, uc: nat, tc: nat) {
    && fs != []
    && var f, rest := fs[|fs| - 1], fs[..|fs| - 1];
       && n == |f.head + f.untyped| && m == |f.typed| && FrameOk(f) && Saved(rest)
       && uc == |LowStack(fs)| == |LowStack(rest)| + n + 1 && tc == |HighStack(fs)| == |HighStack(rest)| + m + 1
  }

  /** What pop() reads from the stacks, and the bounds its copies need, from what push() has checked. */
  lemma {:induction false} PopBounds(p: seq<nat>, cur: Frame, fs: seq<Frame>, layer: nat)
    requires PageOk(p, cur, fs, layer) && fs != []
    ensures var uc, tc := |LowStack(fs)|, |HighStack(fs)|;
            var n, m := p[POS - uc], p[POS + tc];
            TopIs(fs, n, m, uc, tc) && n < uc <= POS && n <= POS - uc && m < tc <= TYPED_SLOTS && tc + m <= TYPED_SLOTS
  {
    hide LowStack, HighStack;
    LowTop(p, POS - |LowStack(fs)|, fs);
    HighTop(p, POS + 1 + |HighStack(fs)|, fs);
  }

  lemma {:induction false} PopPieces(p: seq<nat>, q: seq<nat>, n: nat, m: nat, ut: nat, t: nat, x: nat)
    requires |p| == WORDS && n <= ut && ut + 1 + n <= POS && POS + 1 + m + 1 <= t && t + m <= WORDS
    requires CopiedIn(p, q, n, m, ut, t)
    ensures q[POS] == p[POS]
    ensures var r := q[POS := x];
            && r[..n] == p[ut + 1..ut + 1 + n] && r[WORDS - m..] == p[t - m - 1..t - 1]
            && r[ut + 1 + n..POS] == p[ut + 1 + n..POS] && r[POS + 1..t - m - 1] == p[POS + 1..t - m - 1]
  {
    var r := q[POS := x];
    var lo, hi := ut + 1 + n, t - m - 1;
    Middle(p, q, lo, hi);
    assert r[lo..POS] == q[lo..POS] && r[POS + 1..hi] == q[POS + 1..hi];
    assert r[..n] == q[..n] && r[WORDS - m..] == q[WORDS - m..];
  }

  /** Where the topmost saved frame and the stacks below it lie. */
  lemma {:induction false} PopParts(p: seq<nat>, cur: Frame, fs: seq<Frame>, layer: nat, n: nat, m: nat, uc: nat, tc: nat)
    requires PageOk(p, cur, fs, layer) && TopIs(fs, n, m, uc, tc)
    ensures |p| == WORDS && layer < 0x10
    ensures var f, rest, lo, hi := fs[|fs| - 1], fs[..|fs| - 1], POS - uc, POS + 1 + tc;
            && lo >= 0 && hi <= WORDS && lo + 1 + n + |LowStack(rest)| == POS && POS + 1 + |HighStack(rest)| + m + 1 == hi
            && p[lo + 1..lo + 1 + n] == f.head + f.untyped && p[lo + 1 + n..POS] == LowStack(rest)
            && p[hi - 1 - m..hi - 1] == f.typed && p[POS + 1..hi - 1 - m] == HighStack(rest)
  {
    hide LowStack, HighStack, Saved, Pack, FrameOk;
    LowTop(p, POS - uc, fs);
    HighTop(p, POS + 1 + tc, fs);
  }

  /** A page put together from its parts. */
  lemma {:induction false} PageFrom(r: seq<nat>, f: Frame, fs: seq<Frame>, layer: nat)
    requires CurrentAt(r, f) && StacksAt(r, fs) && layer < 0x10
    requires HEAD + |f.untyped| + |LowStack(fs)| <= POS && POS + 1 + |HighStack(fs)| + |f.typed| <= WORDS
    requires |r| == WORDS && r[POS] == Pack(|HighStack(fs)|, layer, |LowStack(fs)|)
    ensures PageOk(r, f, fs, layer)
  {
    hide LowStack, HighStack, Pack, CurrentAt, StacksAt;
  }

  /** The words copied back by pop() and the counter update restore the topmost saved frame. */
  lemma {:induction false} PopLayout(p: seq<nat>, q: seq<nat>, cur: Frame, fs: seq<Frame>, layer: nat, n: nat, m: nat, uc: nat, tc: nat)
    requires PageOk(p, cur, fs, layer) && TopIs(fs, n, m, uc, tc) && |q| == WORDS
    requires n < uc && n <= POS - uc && m < tc && tc + m <= TYPED_SLOTS && CopiedIn(p, q, n, m, POS - uc, POS + 1 + tc)
    ensures q[POS] == p[POS]
    ensures PageOk(q[POS := Pack(tc - m - 1, layer, uc - n - 1)], fs[|fs| - 1], fs[..|fs| - 1], layer)
  {
    hide LowStack, HighStack, Saved, Pack, CopiedIn, PageOk;
    var f, rest, x := fs[|fs| - 1], fs[..|fs| - 1], Pack(tc - m - 1, layer, uc - n - 1);
    PopParts(p, cur, fs, layer, n, m, uc, tc);
    PopPieces(p, q, n, m, POS - uc, POS + 1 + tc, x);
    assert CurrentAt(q[POS := x], f) && StacksAt(q[POS := x], rest);
    PageFrom(q[POS := x], f, rest, layer);
  }

  /** The counters and the item counts as the code reads them. */
  lemma {:induction false} CountersOf(p: seq<nat>, cur: Frame, fs: seq<Frame>, layer: nat)
    requires PageOk(p, cur, fs, layer)
    ensures UntypedCount(p[POS]) == |LowStack(fs)| && TypedCount(p[POS]) == |HighStack(fs)| && Layer(p[POS]) == layer
    ensures p[MTR] % 0x1_0000 == |cur.untyped| && p[MTR] / 0x1_0000 * 2 == |cur.typed|
    ensures p[..HEAD] == cur.head && |cur.head + cur.untyped| == HEAD + |cur.untyped|
  {
    hide LowStack, HighStack, Saved, Pack, UntypedCount, TypedCount, Layer, CurrentAt, StacksAt;
    StackBounds(p, fs);
    Unpack(|HighStack(fs)|, layer, |LowStack(fs)|);
    HeadWords(p, cur);
  }

  lemma {:induction false} StackBounds(p: seq<nat>, fs: seq<Frame>)
    requires StacksAt(p, fs)
    ensures |p| == WORDS && |LowStack(fs)| <= POS
  {
    hide LowStack, HighStack, Saved;
  }

  /** The head of the current frame, and the item counts in its first word. */
  lemma {:induction false} HeadWords(p: seq<nat>, cur: Frame)
    requires CurrentAt(p, cur)
    ensures |p| == WORDS && p[..HEAD] == cur.head && |cur.head + cur.untyped| == HEAD + |cur.untyped|
    ensures p[MTR] % 0x1_0000 == |cur.untyped| && p[MTR] / 0x1_0000 * 2 == |cur.typed|
  {
    var n := HEAD + |cur.untyped|;
    assert p[..HEAD] == p[..n][..HEAD] == (cur.head + cur.untyped)[..HEAD];
    assert p[MTR] == p[..HEAD][MTR];
    ItemCounts(|cur.untyped|, |cur.typed|, p[MTR]);
  }

  lemma {:induction false} ItemCounts(u: nat, t: nat, mtr: nat)
    requires u < 0x1_0000 && t % 2 == 0 && mtr == t / 2 * 0x1_0000 + u
    ensures mtr % 0x1_0000 == u && mtr / 0x1_0000 * 2 == t
  {
    DivModUnique(mtr, 0x1_0000, t / 2, u);
  }

  lemma {:induction false} LayerKeeps(p: seq<nat>, p': seq<nat>, cur: Frame, fs: seq<Frame>, layer: nat, layer': nat)
    requires PageOk(p, cur, fs, layer) && layer' < 0x10
    requires p' == p[POS := Pack(|HighStack(fs)|, layer', |LowStack(fs)|)]
    ensures PageOk(p', cur, fs, layer')
  {
    hide LowStack, HighStack, Saved, Pack;
  }

  /** Rewriting the current frame within its bounds leaves the saved frames alone. */
  lemma {:induction false} CurrentKeeps(p: seq<nat>, p': seq<nat>, cur: Frame, cur': Frame, fs: seq<Frame>, layer: nat)
    requires PageOk(p, cur, fs, layer) && FrameOk(cur') && |p'| == WORDS
    requires var uc, tc := |LowStack(fs)|, |HighStack(fs)|;
             && HEAD + |cur'.untyped| + uc <= POS && POS + 1 + tc + |cur'.typed| <= WORDS
             && p'[POS - uc..POS + 1 + tc] == p[POS - uc..POS + 1 + tc]
             && p'[..HEAD + |cur'.untyped|] == cur'.head + cur'.untyped
             && p'[WORDS - |cur'.typed|..] == cur'.typed
    ensures PageOk(p', cur', fs, layer)
  {
    hide LowStack, HighStack, Saved, Pack, FrameOk;
    var lo, hi := POS - |LowStack(fs)|, POS + 1 + |HighStack(fs)|;
    Within(p, lo, hi, lo, POS);
    Within(p', lo, hi, lo, POS);
    Within(p, lo, hi, POS + 1, hi);
    Within(p', lo, hi, POS + 1, hi);
    assert p[POS] == p[lo..hi][POS - lo] && p'[POS] == p'[lo..hi][POS - lo];
  }

  function NoFrame(): Frame {
    Frame(seq(HEAD, _ => 0), [], [])
  }

  lemma {:induction false} ZeroPage(p: seq<nat>)
    requires |p| == WORDS && forall i :: 0 <= i < WORDS ==> p[i] == 0
    ensures PageOk(p, NoFrame(), [], 0)
  {
    assert LowStack([]) == [] && HighStack([]) == [];
    assert CurrentAt(p, NoFrame()) by {
      hide LowStack, HighStack, Saved;
      assert NoFrame().head[MTR] == 0;
      assert p[..HEAD] == NoFrame().head + NoFrame().untyped;
    }
    assert StacksAt(p, []) by { assert Saved([]); }
    hide LowStack, HighStack, CurrentAt, StacksAt;
  }

  lemma {:induction false} HeadOf(p: seq<nat>, cur: Frame, fs: seq<Frame>, layer: nat)
    requires |p| == WORDS && PageOk(p, cur, fs, layer)
    ensures |cur.head| == HEAD && Layer(p[POS]) == layer
  {
    CountersOf(p, cur, fs, layer);
    hide LowStack, HighStack, Saved, Pack;
  }

  function FreeUntyped(f: Frame, fs: seq<Frame>): int {
    POS_SLOT - |LowStack(fs)| - |f.untyped|
  }

  function FreeTyped(f: Frame, fs: seq<Frame>): int {
    (TYPED_SLOTS - |HighStack(fs)| - |f.typed|) / 2
  }

  function Put(f: Frame, words: seq<nat>): Frame
    requires |f.head| == HEAD
  {
    Frame(f.head[MTR := f.head[MTR] + |words|], f.untyped + words, f.typed)
  }

  function AddItem(f: Frame, crd: nat, aux: nat): Frame
    requires |f.head| == HEAD
  {
    Frame(f.head[MTR := f.head[MTR] + 0x1_0000], f.untyped, [crd, aux] + f.typed)
  }

  lemma {:induction false} PutLayout(p: seq<nat>, q: seq<nat>, cur: Frame, fs: seq<Frame>, layer: nat, words: seq<nat>)
    requires PageOk(p, cur, fs, layer) && |words| <= FreeUntyped(cur, fs) && |q| == WORDS
    requires forall i :: 0 <= i < WORDS ==>
               q[i] == if i == MTR then p[MTR] + |words|
                       else if HEAD + |cur.untyped| <= i < HEAD + |cur.untyped| + |words| then words[i - HEAD - |cur.untyped|]
                       else p[i]
    ensures PageOk(q, Put(cur, words), fs, layer)
  {
    hide LowStack, HighStack, Saved, Pack;
    var n, k := HEAD + |cur.untyped|, HEAD + |cur.untyped| + |words|;
    var low := p[..n];
    assert low == cur.head + cur.untyped;
    assert forall i :: 0 <= i < n ==> p[i] == low[i];
    assert q[..k] == Put(cur, words).head + Put(cur, words).untyped;
    assert q[WORDS - |cur.typed|..] == p[WORDS - |cur.typed|..];
    CurrentKeeps(p, q, cur, Put(cur, words), fs, layer);
  }

  lemma {:induction false} AddLayout(p: seq<nat>, q: seq<nat>, cur: Frame, fs: seq<Frame>, layer: nat, crd: nat, aux: nat)
    requires PageOk(p, cur, fs, layer) && FreeTyped(cur, fs) > 0
    requires q == p[WORDS - (|cur.typed| + 1) := aux][WORDS - (|cur.typed| + 2) := crd][MTR := p[MTR] + 0x1_0000]
    ensures PageOk(q, AddItem(cur, crd, aux), fs, layer)
  {
    hide LowStack, HighStack, Saved, Pack;
    var n, m := HEAD + |cur.untyped|, |cur.typed|;
    var low := p[..n];
    assert low == cur.head + cur.untyped;
    assert forall i :: 0 <= i < n ==> p[i] == low[i];
    assert q[..n] == AddItem(cur, crd, aux).head + cur.untyped;
    assert q[WORDS - m - 2..] == [crd, aux] + p[WORDS - m..];
    CurrentKeeps(p, q, cur, AddItem(cur, crd, aux), fs, layer);
  }

  // ---------------------------------------------------------------- programs on a list of frames

  /**
   A well-nested use of frames, as seen by one frame object: writes, reads, and the life of an
   inner object. `Ref` reopens the current frame, `Nested` opens a new one.
   */
  datatype Op =
    | Words(words: seq<nat>)
    | Typed(crd: nat, aux: nat)
    | ReadWords(n: nat)
    | ReadItem
    | ClearItems
    | ResetFrame
    | Ref(body: seq<Op>)
    | Nested(body: seq<Op>)

  /** What an operation lets the program see; a failed check is an exception. */
  datatype Event =
    | Stored(ok: bool)
    | WordsRead(ok: bool, words: seq<nat>)
    | ItemRead(ok: bool, crd: nat, aux: nat)
    | Emptied
    | Skipped                             // no layer or no room for an inner object
    | Inside(events: seq<Event>)

  /** The current frame, the frames below it, the read positions of the object, and what it saw. */
  datatype Ran = Ran(cur: Frame, saved: seq<Frame>, upos: nat, tpos: nat, events: seq<Event>)

  /** An inner frame can be opened: a layer is left, and room for what has to be saved. */
  predicate CanOpen(f: Frame, fs: seq<Frame>, layers: nat) {
    layers < 0xF && (layers > 0 ==> RoomFor(f, fs))
  }

  /**
   The meaning of an operation on a list of frames, `fs` below the current one. Opening a frame
   pushes the current one, closing it pops the list; at layer 0 nobody uses the current frame, so
   there is nothing to keep.
   */
  function RunOne(f: Frame, fs: seq<Frame>, layers: nat, upos: nat, tpos: nat, op: Op): (r: Ran)
    requires |f.head| == HEAD
    ensures |r.cur.head| == HEAD && r.saved == fs
    ensures op.Words? ==> r.events == [Stored(HEAD + |f.untyped| + |op.words| + |LowStack(fs)| <= POS)]
    ensures op.Typed? ==> r.events == [Stored(POS + 1 + |HighStack(fs)| + |f.typed| + 2 <= WORDS)]
    decreases op, 1
  {
    match op
    case Words(words) =>
      var ok := |words| <= FreeUntyped(f, fs);
      Ran(if ok then Put(f, words) else f, fs, upos, tpos, [Stored(ok)])
    case Typed(crd, aux) =>
      var ok := FreeTyped(f, fs) > 0;
      Ran(if ok then AddItem(f, crd, aux) else f, fs, upos, tpos, [Stored(ok)])
    case ReadWords(n) =>
      if upos + n <= |f.untyped| then Ran(f, fs, upos + n, tpos, [WordsRead(true, f.untyped[upos..upos + n])])
      else Ran(f, fs, upos, tpos, [WordsRead(false, [])])
    case ReadItem =>
      if tpos < |f.typed| / 2 then
        var k := |f.typed| - 2 * tpos;
        Ran(f, fs, upos, tpos + 1, [ItemRead(true, f.typed[k - 2], f.typed[k - 1])])
      else Ran(f, fs, upos, tpos, [ItemRead(false, 0, 0)])
    case ClearItems => Ran(Frame(f.head[MTR := 0], [], []), fs, upos, tpos, [Emptied])
    case ResetFrame => Ran(Cleared(f.head), fs, 0, 0, [Emptied])
    case Ref(body) => RunRef(f, fs, layers, upos, tpos, body)
    case Nested(body) => RunNested(f, fs, layers, upos, tpos, body)
  }

  function RunRef(f: Frame, fs: seq<Frame>, layers: nat, upos: nat, tpos: nat, body: seq<Op>): (r: Ran)
    requires |f.head| == HEAD
    ensures |r.cur.head| == HEAD && r.saved == fs
    decreases body, 1
  {
    if layers < 0xF then
      var inner := RunAll(f, fs, layers + 1, 0, 0, body);
      Ran(inner.cur, inner.saved, upos, tpos, [Inside(inner.events)])
    else Ran(f, fs, upos, tpos, [Skipped])
  }

  function RunNested(f: Frame, fs: seq<Frame>, layers: nat, upos: nat, tpos: nat, body: seq<Op>): (r: Ran)
    requires |f.head| == HEAD
    ensures |r.cur.head| == HEAD && r.saved == fs && (layers > 0 ==> r.cur == f)
    decreases body, 1
  {
    if !CanOpen(f, fs, layers) then Ran(f, fs, upos, tpos, [Skipped])
    else if layers == 0 then
      var inner := RunAll(Cleared(f.head), fs, 1, 0, 0, body);
      Ran(inner.cur, inner.saved, upos, tpos, [Inside(inner.events)])
    else
      var inner := RunAll(Cleared(f.head), fs + [f], layers + 1, 0, 0, body);
      var top := |inner.saved| - 1;
      Ran(inner.saved[top], inner.saved[..top], upos, tpos, [Inside(inner.events)])
  }

  function RunAll(f: Frame, fs: seq<Frame>, layers: nat, upos: nat, tpos: nat, ops: seq<Op>): (r: Ran)
    requires |f.head| == HEAD
    ensures |r.cur.head| == HEAD && r.saved == fs
    decreases ops, 0
  {
    if ops == [] then Ran(f, fs, upos, tpos, [])
    else
      var a := RunOne(f, fs, layers, upos, tpos, ops[0]);
      var b := RunAll(a.cur, a.saved, layers, a.upos, a.tpos, ops[1..]);
      b.(events := a.events + b.events)
  }

  /** Written words are read back behind the ones that were there, and those stay where they are. */
  lemma {:induction false} WordsAreQueued(f: Frame, fs: seq<Frame>, layers: nat, upos: nat, tpos: nat, n: nat, words: seq<nat>)
    requires |f.head| == HEAD && HEAD + |f.untyped| + |words| + |LowStack(fs)| <= POS
    ensures var g := RunOne(f, fs, layers, upos, tpos, Words(words)).cur;
            && RunOne(g, fs, layers, |f.untyped|, tpos, ReadWords(|words|)).events == [WordsRead(true, words)]
            && (upos + n <= |f.untyped| ==> RunOne(g, fs, layers, upos, tpos, ReadWords(n)).events
                                            == RunOne(f, fs, layers, upos, tpos, ReadWords(n)).events)
  {
    hide LowStack, HighStack;
    assert (f.untyped + words)[|f.untyped|..|f.untyped| + |words|] == words;
    if upos + n <= |f.untyped| { assert (f.untyped + words)[upos..upos + n] == f.untyped[upos..upos + n]; }
  }

  /** Likewise for typed items. */
  lemma {:induction false} ItemsAreQueued(f: Frame, fs: seq<Frame>, layers: nat, upos: nat, tpos: nat, crd: nat, aux: nat)
    requires |f.head| == HEAD && |f.typed| % 2 == 0 && POS + 1 + |HighStack(fs)| + |f.typed| + 2 <= WORDS
    ensures var g := RunOne(f, fs, layers, upos, tpos, Typed(crd, aux)).cur;
            RunOne(g, fs, layers, upos, tpos, ReadItem).events
            == if tpos == |f.typed| / 2 then [ItemRead(true, crd, aux)] else RunOne(f, fs, layers, upos, tpos, ReadItem).events
  {
    hide LowStack, HighStack;
  }

  /** An inner frame is refused exactly without a layer, or if the outer frame does not fit twice. */
  lemma {:induction false} NestedOpensExactly(f: Frame, fs: seq<Frame>, layers: nat, upos: nat, tpos: nat, body: seq<Op>)
    requires |f.head| == HEAD
    ensures RunNested(f, fs, layers, upos, tpos, body).events != [Skipped] <==>
            && layers < 0xF
            && (layers > 0 ==> && 2 * (HEAD + |f.untyped|) + 1 + |LowStack(fs)| <= POS
                               && POS + 1 + |HighStack(fs)| + 2 * |f.typed| + 1 <= WORDS)
  {
    hide LowStack, HighStack, RunAll;
  }

  // ---------------------------------------------------------------- the page

  class Page {
    const w: array<nat>
    ghost var cur: Frame
    ghost var saved: seq<Frame>
    ghost var layer: nat

    ghost predicate Valid()
      reads this, w
    {
      w.Length == WORDS && PageOk(w[..], cur, saved, layer)
    }

    /** push_layer: every frame object opens a layer; there are at most 15. */
    method PushLayer()
      requires Valid() && layer < 0xF
      modifies this, w
      ensures Valid() && cur == old(cur) && saved == old(saved) && layer == old(layer) + 1
    {
      ghost var p := w[..];
      hide PageOk, Or, LowStack, HighStack;
      CountersOf(p, cur, saved, layer);
      PackedCounters(w[POS], Layer(w[POS]) + 1);
      w[POS] := SetLayer(w[POS], Layer(w[POS]) + 1);
      layer := layer + 1;
      LayerKeeps(p, w[..], cur, saved, old(layer), layer);
    }

    /** pop_layer */
    method PopLayer()
      requires Valid() && layer > 0
      modifies this, w
      ensures Valid() && cur == old(cur) && saved == old(saved) && layer == old(layer) - 1
    {
      ghost var p := w[..];
      assert layer < 0x10;
      hide PageOk, Or, LowStack, HighStack;
      CountersOf(p, cur, saved, layer);
      PackedCounters(w[POS], (Layer(w[POS]) - 1) as nat);
      w[POS] := SetLayer(w[POS], Layer(w[POS]) - 1);
      layer := layer - 1;
      LayerKeeps(p, w[..], cur, saved, old(layer), layer);
    }

    /** The first memcpy of push() and the length it stores. */
    method CopyLow(n: nat, ut: nat)
      requires w.Length == WORDS && 2 * n + 1 <= ut <= POS
      modifies w
      ensures LowOut(old(w[..]), w[..], n, ut)
    {
      forall i | 0 <= i < n { w[ut - n + i] := w[i]; }
      w[ut - n - 1] := n;
    }

    /** The second memcpy of push() and the length it stores. */
    method CopyHigh(m: nat, t: nat)
      requires w.Length == WORDS && POS < t && t + 2 * m + 1 <= WORDS
      modifies w
      ensures HighOut(old(w[..]), w[..], m, t)
    {
      forall i | 0 <= i < m { w[t + i] := w[WORDS - m + i]; }
      w[t + m] := m;
    }

    /** The copies of push(); their ranges do not overlap. */
    method CopyOut(n: nat, m: nat, ut: nat, t: nat)
      requires w.Length == WORDS && 2 * n + 1 <= ut <= POS < t && t + 2 * m + 1 <= WORDS
      modifies w
      ensures CopiedOut(old(w[..]), w[..], n, m, ut, t)
    {
      hide CopiedOut, LowOut, HighOut;
      CopyLow(n, ut);
      ghost var q := w[..];
      CopyHigh(m, t);
      BothOut(old(w[..]), q, w[..], n, m, ut, t);
    }

    /** add_untyped and add_typed */
    method SetCounters(uc: nat, tc: nat)
      requires w.Length == WORDS && uc < 0x1000
      modifies w
      ensures w[..] == old(w[..])[POS := Pack(tc, Layer(old(w[POS])), uc)]
    {
      hide Or;
      var x := SetUntyped(w[POS], uc);
      PackedCounters(w[POS], uc);
      Unpack(TypedCount(w[POS]), Layer(w[POS]), uc);
      PackedCounters(x, tc);
      w[POS] := SetTyped(x, tc);
    }

    /** The lengths of the current frame's parts and of the two stacks, in words. */
    method Sizes() returns (n: nat, m: nat, uc: nat, tc: nat)
      requires Valid()
      ensures n == |cur.head + cur.untyped| && m == |cur.typed|
      ensures uc == |LowStack(saved)| && tc == |HighStack(saved)| && Layer(w[POS]) == layer
    {
      hide PageOk, LowStack, HighStack;
      CountersOf(w[..], cur, saved, layer);
      n, m := HEAD + w[MTR] % 0x1_0000, w[MTR] / 0x1_0000 * 2;
      uc, tc := UntypedCount(w[POS]), TypedCount(w[POS]);
    }

    /** The copies of push(), with the sizes of what is copied and of the stacks. */
    method CopyFrame() returns (n: nat, m: nat, uc: nat, tc: nat)
      requires Valid() && RoomFor(cur, saved)
      modifies w
      ensures n == |cur.head + cur.untyped| && m == |cur.typed| && uc == |LowStack(saved)| && tc == |HighStack(saved)|
      ensures w[POS] == old(w[POS]) && Layer(w[POS]) == layer && uc + n + 1 < 0x1000
      ensures PageOk(w[..][POS := Pack(tc + m + 1, layer, uc + n + 1)], cur, saved + [cur], layer)
    {
      hide LowStack, HighStack, Pack, PageOk, CopiedOut, RoomFor, FrameOk, Saved, UntypedCount, TypedCount, Layer;
      ghost var p := w[..];
      n, m, uc, tc := Sizes();
      PushBounds(p, cur, saved, layer);
      CopyOut(n, m, POS - uc, POS + 1 + tc);
      PushLayout(p, w[..], cur, saved, layer);
    }

    /** The saving part of push() */
    method SaveFrame()
      requires Valid() && RoomFor(cur, saved)
      modifies this, w
      ensures Valid() && layer == old(layer) && cur == old(cur) && saved == old(saved) + [cur]
    {
      hide LowStack, HighStack, Pack, PageOk, RoomFor, Layer;
      var n, m, uc, tc := CopyFrame();
      SetCounters(uc + n + 1, tc + m + 1);
      saved := saved + [cur];
    }

    /** reset */
    method Reset()
      requires Valid()
      modifies this, w
      ensures Valid() && layer == old(layer) && saved == old(saved)
      ensures |old(cur.head)| == HEAD && cur == Cleared(old(cur.head))
      ensures w[MTR] == w[XLT] == w[DEL] == 0
    {
      ghost var p := w[..];
      CountersOf(p, cur, saved, layer);
      hide Or, LowStack, HighStack, Saved, Pack;
      w[MTR], w[XLT], w[DEL] := 0, 0, 0;
      CurrentKeeps(p, w[..], cur, Cleared(cur.head), saved, layer);
      cur := Cleared(cur.head);
    }

    /** push: saves the current frame, if there is one, and starts an empty one. */
    method Push()
      requires Valid() && (layer > 1 ==> RoomFor(cur, saved))
      modifies this, w
      ensures Valid() && layer == old(layer)
      ensures |old(cur.head)| == HEAD && cur == Cleared(old(cur.head))
      ensures w[MTR] == w[XLT] == w[DEL] == 0
      ensures saved == if layer > 1 then old(saved) + [old(cur)] else old(saved)
    {
      CountersOf(w[..], cur, saved, layer);
      hide PageOk, RoomFor;
      if Layer(w[POS]) > 1 { SaveFrame(); }
      Reset();
    }

    /** The two memcpy calls of pop(); the copied ranges do not overlap. */
    method CopyIn(n: nat, m: nat, ut: nat, t: nat)
      requires w.Length == WORDS && n <= ut && ut + 1 + n <= POS && POS + 1 + m + 1 <= t && t + m <= WORDS
      modifies w
      ensures CopiedIn(old(w[..]), w[..], n, m, ut, t)
    {
      forall i | 0 <= i < n { w[i] := w[ut + 1 + i]; }
      assert w[t - m - 1..t - 1] == old(w[t - m - 1..t - 1]) && w[..n] == old(w[ut + 1..ut + 1 + n]);
      forall i | 0 <= i < m { w[WORDS - m + i] := w[t - m - 1 + i]; }
    }

    /** The copies of pop(), with the sizes of what is copied and of the stacks. */
    method CopyBack() returns (n: nat, m: nat, uc: nat, tc: nat)
      requires Valid() && saved != []
      modifies w
      ensures n < uc < 0x1000 && m < tc && Layer(w[POS]) == layer
      ensures PageOk(w[..][POS := Pack(tc - m - 1, layer, uc - n - 1)], saved[|saved| - 1], saved[..|saved| - 1], layer)
    {
      hide LowStack, HighStack, Pack, PageOk, CopiedIn, TopIs, UntypedCount, TypedCount, Layer;
      ghost var p := w[..];
      var _, _, uc', tc' := Sizes();
      uc, tc := uc', tc';
      PopBounds(p, cur, saved, layer);
      n, m := w[POS - uc], w[POS + tc];
      CopyIn(n, m, POS - uc, POS + 1 + tc);
      PopLayout(p, w[..], cur, saved, layer, n, m, uc, tc);
    }

    /** The restoring part of pop() */
    method RestoreFrame()
      requires Valid() && saved != []
      modifies this, w
      ensures Valid() && layer == old(layer)
      ensures cur == old(saved)[|old(saved)| - 1] && saved == old(saved)[..|old(saved)| - 1]
    {
      hide LowStack, HighStack, Pack, PageOk, Layer;
      var n, m, uc, tc := CopyBack();
      SetCounters(uc - n - 1, tc - m - 1);
      cur, saved := saved[|saved| - 1], saved[..|saved| - 1];
    }

    /** pop: brings the topmost saved frame back, bit for bit. */
    method Pop()
      requires Valid() && (layer > 1 ==> saved != [])
      modifies this, w
      ensures Valid() && layer == old(layer)
      ensures layer > 1 ==> cur == old(saved)[|old(saved)| - 1] && saved == old(saved)[..|old(saved)| - 1]
      ensures layer <= 1 ==> cur == old(cur) && saved == old(saved)
    {
      hide PageOk, LowStack, HighStack;
      CountersOf(w[..], cur, saved, layer);
      if Layer(w[POS]) > 1 { RestoreFrame(); }
    }

    /** A zeroed page: no frame, no layer. */
    constructor ()
      ensures Valid() && cur == NoFrame() && saved == [] && layer == 0
      ensures fresh(w)
    {
      hide PageOk, NoFrame;
      w := new nat[WORDS];
      cur, saved, layer := NoFrame(), [], 0;
      new;
      forall i | 0 <= i < WORDS { w[i] := 0; }
      ZeroPage(w[..]);
    }

    /** operator<<: appends words if the capacity check allows it. */
    method PutUntyped(words: seq<nat>) returns (ok: bool)
      requires Valid()
      modifies this, w
      ensures Valid() && saved == old(saved) && layer == old(layer)
      ensures ok <==> HEAD + |old(cur).untyped| + |words| + |LowStack(saved)| <= POS
      ensures ok ==> cur.untyped == old(cur).untyped + words && cur.typed == old(cur).typed
      ensures cur == if ok then Put(old(cur), words) else old(cur)
    {
      ghost var p := w[..];
      hide LowStack, HighStack, Saved, Pack, UntypedCount, TypedCount, Layer, PageOk, FrameOk;
      PageBounds(p, cur, saved, layer);
      var n, _, uc, _ := Sizes();
      ok := |words| <= POS - uc - n;
      if ok {
        forall i | 0 <= i < |words| { w[n + i] := words[i]; }
        w[MTR] := w[MTR] + |words|;
        PutLayout(p, w[..], cur, saved, layer, words);
        cur := Put(cur, words);
      }
    }

    /** The assignments of add_typed. */
    method StoreItem(m: nat, crd: nat, aux: nat)
      requires w.Length == WORDS && MTR < WORDS - (m + 2)
      modifies w
      ensures w[..] == old(w[..])[WORDS - (m + 1) := aux][WORDS - (m + 2) := crd][MTR := old(w[MTR]) + 0x1_0000]
    {
      w[WORDS - (m + 1)] := aux;
      w[WORDS - (m + 2)] := crd;
      w[MTR] := w[MTR] + 0x1_0000;
    }

    /** add_typed: one more item below the existing ones. */
    method AddTyped(crd: nat, aux: nat) returns (ok: bool)
      requires Valid()
      modifies this, w
      ensures Valid() && saved == old(saved) && layer == old(layer)
      ensures ok <==> POS + 1 + |HighStack(saved)| + |old(cur).typed| + 2 <= WORDS
      ensures ok ==> cur.untyped == old(cur).untyped && cur.typed == [crd, aux] + old(cur).typed
      ensures cur == if ok then AddItem(old(cur), crd, aux) else old(cur)
    {
      ghost var p := w[..];
      hide LowStack, HighStack, Saved, Pack, UntypedCount, TypedCount, Layer, PageOk, FrameOk;
      PageBounds(p, cur, saved, layer);
      var _, m, _, tc := Sizes();
      ok := (TYPED_SLOTS - tc - m) / 2 > 0;
      if ok {
        StoreItem(m, crd, aux);
        AddLayout(p, w[..], cur, saved, layer, crd, aux);
        cur := AddItem(cur, crd, aux);
      }
    }

    /** get_typed: the item at read position `tpos`, if there is one. */
    method GetTyped(tpos: nat) returns (ok: bool, crd: nat, aux: nat)
      requires Valid()
      ensures ok <==> tpos < |cur.typed| / 2
      ensures ok ==> crd == cur.typed[|cur.typed| - 2 * tpos - 2] && aux == cur.typed[|cur.typed| - 2 * tpos - 1]
      ensures !ok ==> crd == 0 && aux == 0
    {
      hide LowStack, HighStack, Saved, Pack, UntypedCount, TypedCount, Layer;
      var _, m, _, _ := Sizes();
      ok, crd, aux := tpos < m / 2, 0, 0;
      if ok {
        ghost var t := w[..][WORDS - m..];
        assert t == cur.typed;
        aux := w[WORDS - (2 * tpos + 1)];
        crd := w[WORDS - (2 * tpos + 2)];
        assert aux == t[m - 2 * tpos - 1] && crd == t[m - 2 * tpos - 2];
      }
    }

    /** operator>>: `n` words from read position `upos`, if they are there. */
    method ReadUntyped(upos: nat, n: nat) returns (ok: bool, words: seq<nat>)
      requires Valid()
      ensures ok <==> upos + n <= |cur.untyped|
      ensures ok ==> words == cur.untyped[upos..upos + n]
      ensures !ok ==> words == []
    {
      hide LowStack, HighStack, Saved, Pack, UntypedCount, TypedCount, Layer;
      var k, _, _, _ := Sizes();
      ok, words := HEAD + upos + n <= k, [];
      if ok {
        words := w[HEAD + upos..HEAD + upos + n];
        ghost var low := w[..][..k];
        assert low == cur.head + cur.untyped && |cur.head| == HEAD;
        ghost var part := cur.untyped[upos..upos + n];
        assert forall i :: 0 <= i < n ==> words[i] == low[HEAD + upos + i];
        assert forall i :: 0 <= i < n ==> part[i] == low[HEAD + upos + i];
      }
    }

    /** clear: drops all items of the current frame. */
    method Clear()
      requires Valid()
      modifies this, w
      ensures Valid() && saved == old(saved) && layer == old(layer)
      ensures |old(cur.head)| == HEAD && cur == Frame(old(cur.head)[MTR := 0], [], [])
    {
      ghost var p := w[..];
      CountersOf(p, cur, saved, layer);
      hide Or, LowStack, HighStack, Saved, Pack;
      w[MTR] := 0;
      CurrentKeeps(p, w[..], cur, Frame(cur.head[MTR := 0], [], []), saved, layer);
      cur := Frame(cur.head[MTR := 0], [], []);
    }

    /**
     Runs a program of one frame object. Whatever it and its inner objects write, read and see is
     what the same program does on a list of frames.
     */
    method Execute(ops: seq<Op>, upos: nat, tpos: nat) returns (upos': nat, tpos': nat, events: seq<Event>)
      requires Valid()
      modifies this, w
      ensures Valid() && layer == old(layer) && |old(cur).head| == HEAD
      ensures Ran(cur, saved, upos', tpos', events) == RunAll(old(cur), old(saved), layer, upos, tpos, ops)
      decreases ops, 0
    {
      hide LowStack, HighStack, Saved, PageOk, RunOne;
      HeadOf(w[..], cur, saved, layer);
      if ops == [] {
        return upos, tpos, [];
      }
      var u, t, first := ExecuteOne(ops[0], upos, tpos);
      var u', t', rest := Execute(ops[1..], u, t);
      return u', t', first + rest;
    }

    method ExecuteOne(op: Op, upos: nat, tpos: nat) returns (upos': nat, tpos': nat, events: seq<Event>)
      requires Valid()
      modifies this, w
      ensures Valid() && layer == old(layer) && |old(cur).head| == HEAD
      ensures Ran(cur, saved, upos', tpos', events) == RunOne(old(cur), old(saved), layer, upos, tpos, op)
      decreases op, 1
    {
      hide LowStack, HighStack, Saved, PageOk, RoomFor, Put, AddItem, UntypedCount, TypedCount, RunRef, RunNested;
      HeadOf(w[..], cur, saved, layer);
      upos', tpos' := upos, tpos;
      match op {
        case Words(words) =>
          var ok := PutUntyped(words);
          events := [Stored(ok)];
        case Typed(crd, aux) =>
          var ok := AddTyped(crd, aux);
          events := [Stored(ok)];
        case ReadWords(n) =>
          var ok, words := ReadUntyped(upos, n);
          events := [WordsRead(ok, words)];
          if ok { upos' := upos + n; }
        case ReadItem =>
          var ok, crd, aux := GetTyped(tpos);
          events := [ItemRead(ok, crd, aux)];
          if ok { tpos' := tpos + 1; }
        case ClearItems =>
          Clear();
          events := [Emptied];
        case ResetFrame =>
          Reset();
          upos', tpos', events := 0, 0, [Emptied];
        case Ref(body) =>
          events := ExecuteRef(body, upos, tpos);
        case Nested(body) =>
          events := ExecuteNested(body, upos, tpos);
      }
    }

    /** A UtcbFrameRef on the current frame, from construction to destruction. */
    method ExecuteRef(body: seq<Op>, ghost upos: nat, ghost tpos: nat) returns (events: seq<Event>)
      requires Valid()
      modifies this, w
      ensures Valid() && layer == old(layer) && |old(cur).head| == HEAD
      ensures Ran(cur, saved, upos, tpos, events) == RunRef(old(cur), old(saved), layer, upos, tpos, body)
      decreases body, 1
    {
      hide LowStack, HighStack, Saved, PageOk, RoomFor, RunAll, UntypedCount, TypedCount;
      HeadOf(w[..], cur, saved, layer);
      if Layer(w[POS]) < 0xF {
        PushLayer();
        var _, _, inner := Execute(body, 0, 0);
        PopLayer();
        events := [Inside(inner)];
      } else {
        events := [Skipped];
      }
    }

    /**
     A UtcbFrame from construction to destruction, within the room push() needs. The inner frame
     lives as on a list of frames, and the outer one is restored bit for bit when it ends.
     */
    method ExecuteNested(body: seq<Op>, ghost upos: nat, ghost tpos: nat) returns (events: seq<Event>)
      requires Valid()
      modifies this, w
      ensures Valid() && layer == old(layer) && |old(cur).head| == HEAD
      ensures Ran(cur, saved, upos, tpos, events) == RunNested(old(cur), old(saved), layer, upos, tpos, body)
      ensures layer > 0 ==> cur == old(cur) && saved == old(saved)
      decreases body, 1
    {
      hide LowStack, HighStack, Saved, PageOk, RunAll, UntypedCount, TypedCount;
      HeadOf(w[..], cur, saved, layer);
      var n, m, uc, tc := Sizes();
      var l := Layer(w[POS]);
      if l < 0xF && (l > 0 ==> 2 * n + 1 + uc <= POS && 2 * m + 1 + tc <= TYPED_SLOTS) {
        PushLayer();
        Push();
        var _, _, inner := Execute(body, 0, 0);
        Pop();
        PopLayer();
        events := [Inside(inner)];
      } else {
        events := [Skipped];
      }
    }
  }
}
