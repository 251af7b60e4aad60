/**
 DMADescList (nre/include/util/DMA.h): a list of memory ranges that is read or written as one
 stream of bytes; and the sector loop of HostATADevice::transferPIO
 (nre/services/storage/HostATADevice.cc).
 */
module Dma {
  import opened Bits

  type Byte = b: int | 0 <= b < 256

  datatype Desc = Desc(offset: nat, count: nat)

  // ---------------------------------------------------------------- the stream

  function Range(from: nat, n: nat): (r: seq<nat>) {
    seq(n, i requires 0 <= i < n => from + i)
  }

  /** The addresses of the stream: those of all descriptors, one after the other. */
  function Stream(descs: seq<Desc>): (r: seq<nat>) {
    if descs == [] then [] else Range(descs[0].offset, descs[0].count) + Stream(descs[1..])
  }

  function Total(descs: seq<Desc>): (r: nat) {
    if descs == [] then 0 else descs[0].count + Total(descs[1..])
  }

  predicate Within(addrs: seq<nat>, size: nat) {
    forall i :: 0 <= i < |addrs| ==> addrs[i] < size
  }

  function Gather(mem: seq<Byte>, addrs: seq<nat>): (r: seq<Byte>)
    requires Within(addrs, |mem|)
  {
    seq(|addrs|, i requires 0 <= i < |addrs| => mem[addrs[i]])
  }

  /** Writing the bytes to the addresses, in this order. */
  function Scatter(mem: seq<Byte>, addrs: seq<nat>, bytes: seq<Byte>): (r: seq<Byte>)
    requires Within(addrs, |mem|) && |addrs| == |bytes|
    ensures |r| == |mem|
  {
    if addrs == [] then mem
    else
      var n := |addrs| - 1;
      Scatter(mem, addrs[..n], bytes[..n])[addrs[n] := bytes[n]]
  }

  /** All descriptors lie in the dataspace. */
  predicate InBounds(descs: seq<Desc>, size: nat) {
    forall i :: 0 <= i < |descs| ==> descs[i].offset + descs[i].count <= size
  }

  // ---------------------------------------------------------------- what a call touches

  /** Behind the descriptors that end before `off`. */
  function Skip(descs: seq<Desc>, off: nat): (r: (seq<Desc>, nat))
    ensures r.0 != [] ==> r.1 < r.0[0].count
  {
    if descs != [] && off >= descs[0].count then Skip(descs[1..], off - descs[0].count) else (descs, off)
  }

  /** The addresses the copy loop reaches, up to the first descriptor that leaves the dataspace. */
  function Reach(descs: seq<Desc>, off: nat, len: nat, size: nat): (r: seq<nat>)
    requires descs != [] ==> off <= descs[0].count
    ensures |r| <= len && Within(r, size)
  {
    if len == 0 || descs == [] then []
    else
      var d := descs[0];
      var sub := Min(d.count - off, len);
      if d.offset + off + sub > size then []
      else Range(d.offset + off, sub) + Reach(descs[1..], 0, len - sub, size)
  }

  /** The addresses a call copies, for `len` bytes from position `off` of the stream. */
  function Plan(descs: seq<Desc>, off: nat, len: nat, size: nat): (r: seq<nat>)
    ensures |r| <= len && Within(r, size)
  {
    var (rest, o) := Skip(descs, off);
    Reach(rest, o, len, size)
  }

  /** The part of the stream from `off` on, as far as it goes. */
  function Slice(descs: seq<Desc>, off: nat, len: nat): (r: seq<nat>) {
    var s := Stream(descs);
    var from := Min(off, |s|);
    s[from..Min(from + len, |s|)]
  }

  lemma {:induction false} StreamLength(descs: seq<Desc>)
    ensures |Stream(descs)| == Total(descs)
  {
    if descs != [] {
      StreamLength(descs[1..]);
    }
  }

  lemma {:induction false} SkipKeepsSlice(descs: seq<Desc>, off: nat, len: nat)
    ensures Slice(Skip(descs, off).0, Skip(descs, off).1, len) == Slice(descs, off, len)
  {
    if descs != [] && off >= descs[0].count {
      SkipKeepsSlice(descs[1..], off - descs[0].count, len);
    }
  }

  lemma {:induction false} SkipInBounds(descs: seq<Desc>, off: nat, size: nat)
    requires InBounds(descs, size)
    ensures InBounds(Skip(descs, off).0, size)
  {
    if descs != [] && off >= descs[0].count {
      SkipInBounds(descs[1..], off - descs[0].count, size);
    }
  }

  /** One descriptor and the rest of the slice. */
  lemma {:induction false} SliceStep(descs: seq<Desc>, off: nat, len: nat)
    requires descs != [] && off <= descs[0].count
    ensures var sub := Min(descs[0].count - off, len);
            Slice(descs, off, len) == Range(descs[0].offset + off, sub) + Slice(descs[1..], 0, len - sub)
  {
    var d, rest := descs[0], Stream(descs[1..]);
    var sub := Min(d.count - off, len);
    assert Stream(descs) == Range(d.offset, d.count) + rest;
    var s, t := Slice(descs, off, len), Range(d.offset + off, sub) + Slice(descs[1..], 0, len - sub);
    assert |s| == |t|;
    assert forall i :: 0 <= i < |s| ==> s[i] == t[i];
  }

  /** What is copied is always the beginning of the slice that was asked for. */
  lemma {:induction false} ReachIsPrefix(descs: seq<Desc>, off: nat, len: nat, size: nat)
    requires descs != [] ==> off <= descs[0].count
    ensures Reach(descs, off, len, size) <= Slice(descs, off, len)
    ensures InBounds(descs, size) ==> Reach(descs, off, len, size) == Slice(descs, off, len)
  {
    if len > 0 && descs != [] {
      var sub := Min(descs[0].count - off, len);
      SliceStep(descs, off, len);
      ReachIsPrefix(descs[1..], 0, len - sub, size);
      hide Slice;
    }
  }

  /**
   A call copies the beginning of the slice of the stream that it was asked for, and all of it if
   the descriptors lie in the dataspace.
   */
  lemma {:induction false} PlanIsSlice(descs: seq<Desc>, off: nat, len: nat, size: nat)
    ensures Plan(descs, off, len, size) <= Slice(descs, off, len)
    ensures InBounds(descs, size) ==> Plan(descs, off, len, size) == Slice(descs, off, len)
  {
    var (rest, o) := Skip(descs, off);
    SkipKeepsSlice(descs, off, len);
    ReachIsPrefix(rest, o, len, size);
    if InBounds(descs, size) {
      SkipInBounds(descs, off, size);
    }
    hide Slice, Reach, InBounds;
  }

  // ---------------------------------------------------------------- copying

  lemma {:induction false} ScatterLast(mem: seq<Byte>, a: seq<nat>, x: seq<Byte>, addr: nat, b: Byte)
    requires |a| == |x| && Within(a, |mem|) && addr < |mem|
    ensures Within(a + [addr], |mem|) && Scatter(mem, a + [addr], x + [b]) == Scatter(mem, a, x)[addr := b]
  {
    var a', x' := a + [addr], x + [b];
    assert a'[..|a|] == a && x'[..|x|] == x && a'[|a|] == addr && x'[|x|] == b;
  }

  lemma {:induction false} WithinJoin(a: seq<nat>, b: seq<nat>, size: nat)
    ensures Within(a + b, size) <==> Within(a, size) && Within(b, size)
  {
    if Within(a + b, size) {
      forall i | 0 <= i < |a| ensures a[i] < size { assert (a + b)[i] == a[i]; }
      forall i | 0 <= i < |b| ensures b[i] < size { assert (a + b)[|a| + i] == b[i]; }
    }
  }

  lemma {:induction false} ScatterJoin(mem: seq<Byte>, a: seq<nat>, x: seq<Byte>, b: seq<nat>, y: seq<Byte>)
    requires |a| == |x| && |b| == |y| && Within(a, |mem|) && Within(b, |mem|)
    ensures Within(a + b, |mem|) && Scatter(mem, a + b, x + y) == Scatter(Scatter(mem, a, x), b, y)
  {
    WithinJoin(a, b, |mem|);
    if b == [] {
      assert a + b == a && x + y == x;
    } else {
      var n := |b| - 1;
      var b', y' := b[..n], y[..n];
      assert b == b' + [b[n]] && y == y' + [y[n]];
      WithinJoin(b', [b[n]], |mem|);
      ScatterJoin(mem, a, x, b', y');
      assert a + b == (a + b') + [b[n]] && x + y == (x + y') + [y[n]];
      assert b[n] < |mem|;
      hide Scatter, Within;
      ScatterLast(mem, a + b', x + y', b[n], y[n]);
      ScatterLast(Scatter(mem, a, x), b', y', b[n], y[n]);
    }
  }

  predicate Distinct(addrs: seq<nat>) {
    forall i, j :: 0 <= i < j < |addrs| ==> addrs[i] != addrs[j]
  }

  /** What was written to disjoint descriptors is read back. */
  lemma {:induction false} ReadBack(mem: seq<Byte>, addrs: seq<nat>, bytes: seq<Byte>)
    requires |addrs| == |bytes| && Within(addrs, |mem|) && Distinct(addrs)
    ensures Gather(Scatter(mem, addrs, bytes), addrs) == bytes
  {
    if addrs != [] {
      var n := |addrs| - 1;
      ReadBack(mem, addrs[..n], bytes[..n]);
      var m := Scatter(mem, addrs[..n], bytes[..n]);
      var m' := m[addrs[n] := bytes[n]];
      forall i | 0 <= i < |addrs| ensures Gather(m', addrs)[i] == bytes[i] {
        assert i < n ==> Gather(m, addrs[..n])[i] == bytes[..n][i];
      }
    }
  }

  /** After `pos` bytes of a copy along `plan`. */
  ghost predicate Copied(plan: seq<nat>, pos: nat, out: bool, buf0: seq<Byte>, buf: seq<Byte>, mem0: seq<Byte>, mem: seq<Byte>) {
    && pos <= |plan| <= |buf0| && |buf| == |buf0| && |mem| == |mem0| && Within(plan, |mem0|)
    && Within(plan[..pos], |mem0|)
    && (out ==> buf == buf0 && mem == Scatter(mem0, plan[..pos], buf0[..pos]))
    && (!out ==> mem == mem0 && buf == Gather(mem0, plan[..pos]) + buf0[pos..])
  }

  lemma {:induction false} PlanStep(plan: seq<nat>, pos: nat, piece: seq<nat>, rest: seq<nat>)
    requires pos <= |plan| && plan[pos..] == piece + rest
    ensures pos + |piece| <= |plan| && plan[..pos + |piece|] == plan[..pos] + piece && plan[pos + |piece|..] == rest
  {
    assert plan == plan[..pos] + (piece + rest);
  }

  lemma {:induction false} CopiedOut(plan: seq<nat>, pos: nat, buf: seq<Byte>, mem0: seq<Byte>, mem: seq<Byte>, piece: seq<nat>, rest: seq<nat>)
    requires Copied(plan, pos, true, buf, buf, mem0, mem) && plan[pos..] == piece + rest
    ensures Within(piece, |mem|) && pos + |piece| <= |buf|
    ensures Copied(plan, pos + |piece|, true, buf, buf, mem0, Scatter(mem, piece, buf[pos..pos + |piece|]))
  {
    PlanStep(plan, pos, piece, rest);
    var n := pos + |piece|;
    assert buf[..n] == buf[..pos] + buf[pos..n];
    assert Within(piece, |mem|) by {
      assert forall i :: 0 <= i < |piece| ==> piece[i] == plan[pos..][i];
    }
    ScatterJoin(mem0, plan[..pos], buf[..pos], piece, buf[pos..n]);
    hide Scatter;
  }

  lemma {:induction false} CopiedIn(plan: seq<nat>, pos: nat, buf0: seq<Byte>, buf: seq<Byte>, mem: seq<Byte>, from: nat, n: nat, rest: seq<nat>)
    requires Copied(plan, pos, false, buf0, buf, mem, mem) && plan[pos..] == Range(from, n) + rest && from + n <= |mem|
    ensures pos + n <= |buf|
    ensures Copied(plan, pos + n, false, buf0, buf[..pos] + mem[from..from + n] + buf[pos + n..], mem, mem)
  {
    PlanStep(plan, pos, Range(from, n), rest);
    assert Gather(mem, plan[..pos + n]) == Gather(mem, plan[..pos]) + mem[from..from + n];
    assert buf[pos + n..] == buf0[pos + n..] && buf[..pos] == Gather(mem, plan[..pos]);
  }

  lemma {:induction false} CopiedNothing(plan: seq<nat>, out: bool, buf: seq<Byte>, mem: seq<Byte>)
    requires |plan| <= |buf| && Within(plan, |mem|)
    ensures Copied(plan, 0, out, buf, buf, mem, mem)
  {
    assert plan[..0] == [] && buf[0..] == buf;
    assert Gather(mem, plan[..0]) == [];
  }

  /** `d` with `n` bytes from position `from` of `s` put at `to`. */
  function Overwritten(d: seq<Byte>, to: nat, s: seq<Byte>, from: nat, n: nat): seq<Byte>
    requires to + n <= |d| && from + n <= |s|
  {
    d[..to] + s[from..from + n] + d[to + n..]
  }

  lemma {:induction false} OverwriteNext(d: seq<Byte>, to: nat, s: seq<Byte>, from: nat, n: nat)
    requires to + n < |d| && from + n < |s|
    ensures Overwritten(d, to, s, from, n + 1) == Overwritten(d, to, s, from, n)[to + n := s[from + n]]
  {}

  /** memcpy within bounds. */
  method CopyBytes(src: array<Byte>, from: nat, dst: array<Byte>, to: nat, n: nat)
    requires src != dst && from + n <= src.Length && to + n <= dst.Length
    modifies dst
    ensures dst[..] == old(dst[..])[..to] + src[from..from + n] + old(dst[..])[to + n..]
  {
    ghost var d, s := dst[..], src[..];
    assert dst[..] == Overwritten(d, to, s, from, 0);
    for i := 0 to n
      invariant dst[..] == Overwritten(d, to, s, from, i) && src[..] == s
    {
      OverwriteNext(d, to, s, from, i);
      hide Overwritten;
      dst[to + i] := src[from + i];
    }
    assert src[from..from + n] == s[from..from + n];
  }

  lemma {:induction false} ScatterRange(mem: seq<Byte>, to: nat, bytes: seq<Byte>)
    requires to + |bytes| <= |mem|
    ensures Within(Range(to, |bytes|), |mem|)
    ensures Scatter(mem, Range(to, |bytes|), bytes) == mem[..to] + bytes + mem[to + |bytes|..]
  {
    if bytes != [] {
      var n := |bytes| - 1;
      ScatterRange(mem, to, bytes[..n]);
      assert Range(to, n + 1)[..n] == Range(to, n);
      assert (mem[..to] + bytes[..n] + mem[to + n..])[to + n := bytes[n]] == mem[..to] + bytes + mem[to + n + 1..];
    } else {
      assert mem[..to] + bytes + mem[to..] == mem;
    }
  }

  // ---------------------------------------------------------------- the list

  lemma {:induction false} TotalJoin(a: seq<Desc>, b: seq<Desc>)
    ensures Total(a + b) == Total(a) + Total(b)
  {
    if a == [] {
      assert a + b == b;
    } else {
      TotalJoin(a[1..], b);
      assert (a + b)[1..] == a[1..] + b;
    }
  }

  lemma {:induction false} TotalLast(descs: seq<Desc>)
    requires descs != []
    ensures Total(descs) == Total(descs[..|descs| - 1]) + descs[|descs| - 1].count
  {
    var n := |descs| - 1;
    assert descs == descs[..n] + [descs[n]];
    TotalJoin(descs[..n], [descs[n]]);
  }

  lemma {:induction false} WordAdd(a: int, b: int)
    ensures (a % WORD + b) % WORD == (a + b) % WORD && (a % WORD - b) % WORD == (a - b) % WORD
  {
    var q := a / WORD;
    assert a + b == a % WORD + b + q * WORD && a - b == a % WORD - b + q * WORD;
  }

  /** No descriptor wraps around the address space. */
  predicate NoWrap(descs: seq<Desc>) {
    forall i :: 0 <= i < |descs| ==> descs[i].offset + descs[i].count < WORD
  }

  lemma {:induction false} ReachStep(list: seq<Desc>, it: nat, o: nat, left: nat, size: nat)
    requires it < |list| && o <= list[it].count && left > 0
    ensures var sub, a := Min(list[it].count - o, left), list[it].offset + o;
            Reach(list[it..], o, left, size) ==
              if a + sub > size then [] else Range(a, sub) + Reach(list[it + 1..], 0, left - sub, size)
  {
    assert list[it..][1..] == list[it + 1..];
    hide Range;
  }

  /** Without wrap-around the test of inout is the one for the end of the piece. */
  lemma {:induction false} OutsideIs(addr: nat, n: nat, size: nat)
    requires addr + n < WORD && size < WORD
    ensures Outside(addr, n, size) <==> addr + n > size
  {}

  /** `plan[pos..]` is what the copy loop has before it at descriptor `it`. */
  predicate OnPlan(plan: seq<nat>, pos: nat, list: seq<Desc>, it: nat, o: nat, left: nat, size: nat) {
    && pos <= |plan| && it <= |list| && (it < |list| ==> o <= list[it].count)
    && plan[pos..] == Reach(list[it..], o, left, size)
  }

  /** The test of inout, in word arithmetic. */
  predicate Outside(addr: nat, n: nat, size: nat) {
    addr % WORD > size || (addr + n) % WORD > size
  }

  predicate PieceNext(plan: seq<nat>, pos: nat, addr: nat, n: nat) {
    pos + n <= |plan| && plan[pos..] == Range(addr, n) + plan[pos + n..]
  }

  lemma {:induction false} PlanAdvance(plan: seq<nat>, pos: nat, list: seq<Desc>, it: nat, o: nat, left: nat, size: nat)
    requires OnPlan(plan, pos, list, it, o, left, size) && it < |list| && left > 0 && NoWrap(list) && size < WORD
    ensures var sub, a := Min(list[it].count - o, left), list[it].offset + o;
            && (Outside(a, sub, size) ==> pos == |plan|)
            && (!Outside(a, sub, size) ==> a + sub <= size && PieceNext(plan, pos, a, sub))
            && sub <= left && (!Outside(a, sub, size) ==> OnPlan(plan, pos + sub, list, it + 1, 0, left - sub, size))
  {
    hide Reach, Range, Outside;
    var sub, a := Min(list[it].count - o, left), list[it].offset + o;
    ReachStep(list, it, o, left, size);
    assert list[it].offset + list[it].count < WORD;
    OutsideIs(a, sub, size);
    if a + sub <= size {
      var piece, rest := Range(a, sub), Reach(list[it + 1..], 0, left - sub, size);
      assert |piece| == sub by { RangeLength(a, sub); }
      hide NoWrap;
      PlanStep(plan, pos, piece, rest);
    }
  }

  lemma {:induction false} RangeLength(from: nat, n: nat)
    ensures |Range(from, n)| == n
  {}

  lemma {:induction false} PlanStart(list: seq<Desc>, offset: nat, len: nat, size: nat, it: nat, o: nat)
    requires it <= |list| && Skip(list, offset) == (list[it..], o)
    ensures OnPlan(Plan(list, offset, len, size), 0, list, it, o, len, size)
  {
    hide Reach;
  }

  lemma {:induction false} OnPlanStart(plan: seq<nat>, list: seq<Desc>, start: nat, skip: nat, len: nat, size: nat)
    requires OnPlan(plan, 0, list, start, skip, len, size)
    ensures start <= |list|
  {}

  lemma {:induction false} OnPlanBounds(plan: seq<nat>, pos: nat, list: seq<Desc>, it: nat, o: nat, left: nat, size: nat)
    requires OnPlan(plan, pos, list, it, o, left, size) && it < |list|
    ensures o <= list[it].count
  {}

  lemma {:induction false} PlanEnd(plan: seq<nat>, pos: nat, list: seq<Desc>, it: nat, o: nat, left: nat, size: nat)
    requires OnPlan(plan, pos, list, it, o, left, size) && (left == 0 || it == |list|)
    ensures pos == |plan|
  {}

  ghost predicate CopiedSoFar(plan: seq<nat>, pos: nat, out: bool, buf0: seq<Byte>, buffer: array<Byte>, mem0: seq<Byte>, ds: array<Byte>)
    reads buffer, ds
  {
    Copied(plan, pos, out, buf0, buffer[..], mem0, ds[..])
  }

  lemma {:induction false} CopyStart(plan: seq<nat>, out: bool, buffer: array<Byte>, ds: array<Byte>)
    requires |plan| <= buffer.Length && Within(plan, ds.Length)
    ensures CopiedSoFar(plan, 0, out, buffer[..], buffer, ds[..], ds)
  {
    CopiedNothing(plan, out, buffer[..], ds[..]);
  }

  /** One memcpy of inout, in the wanted direction. */
  method CopyPiece(buffer: array<Byte>, pos: nat, ds: array<Byte>, addr: nat, n: nat, out: bool,
                   ghost plan: seq<nat>, ghost buf0: seq<Byte>, ghost mem0: seq<Byte>)
    requires buffer != ds && addr + n <= ds.Length && PieceNext(plan, pos, addr, n)
    requires CopiedSoFar(plan, pos, out, buf0, buffer, mem0, ds)
    modifies buffer, ds
    ensures CopiedSoFar(plan, pos + n, out, buf0, buffer, mem0, ds)
  {
    if out {
      CopiedOut(plan, pos, buffer[..], mem0, ds[..], Range(addr, n), plan[pos + n..]);
      assert buffer[..][pos..pos + n] == buffer[pos..pos + n];
      ScatterRange(ds[..], addr, buffer[pos..pos + n]);
      hide Scatter;
      CopyBytes(buffer, pos, ds, addr, n);
    } else {
      CopiedIn(plan, pos, buf0, buffer[..], ds[..], addr, n, plan[pos + n..]);
      hide Gather;
      CopyBytes(ds, addr, buffer, pos, n);
    }
  }

  /** The second loop of inout: one descriptor after the other, from byte `skip` of `start` on. */
  method CopyAlong(list: seq<Desc>, start: nat, skip: nat, buffer: array<Byte>, len: nat, ds: array<Byte>, out: bool,
                   ghost plan: seq<nat>)
    returns (left: nat)
    requires NoWrap(list) && len <= buffer.Length && buffer != ds && ds.Length < WORD && |plan| <= len
    requires OnPlan(plan, 0, list, start, skip, len, ds.Length) && Within(plan, ds.Length)
    modifies buffer, ds
    ensures CopiedSoFar(plan, |plan|, out, old(buffer[..]), buffer, old(ds[..]), ds)
    ensures |plan| + left == len
  {
    hide *;
    ghost var size, buf0, mem0 := ds.Length, buffer[..], ds[..];
    var it: nat, o: nat := start, skip;
    var pos: nat := 0;
    left := len;
    CopyStart(plan, out, buffer, ds);
    OnPlanStart(plan, list, start, skip, len, size);
    while left > 0 && it < |list|
      invariant it <= |list| && pos + left == len && OnPlan(plan, pos, list, it, o, left, size)
      invariant CopiedSoFar(plan, pos, out, buf0, buffer, mem0, ds)
    {
      OnPlanBounds(plan, pos, list, it, o, left, size);
      PlanAdvance(plan, pos, list, it, o, left, size);
      var d := list[it];
      var sub: nat := Min(d.count - o, left);
      if Outside(d.offset + o, sub, ds.Length) {
        return;
      }
      CopyPiece(buffer, pos, ds, d.offset + o, sub, out, plan, buf0, mem0);
      pos, left, o := pos + sub, left - sub, 0;
      it := it + 1;
    }
    PlanEnd(plan, pos, list, it, o, left, size);
  }

  class DescList {
    const descs: array<Desc>
    var count: nat
    var total: nat

    ghost predicate Valid()
      reads this, descs
    {
      count <= descs.Length && total == Total(descs[..count]) % WORD
    }

    ghost function List(): (r: seq<Desc>)
      requires Valid()
      reads this, descs
    {
      descs[..count]
    }

    constructor (max: nat)
      ensures Valid() && List() == [] && descs.Length == max && fresh(descs)
    {
      descs := new Desc[max];
      count, total := 0, 0;
    }

    method Push(desc: Desc)
      requires Valid() && count < descs.Length
      modifies this, descs
      ensures Valid() && List() == old(List()) + [desc]
    {
      WordAdd(Total(descs[..count]), desc.count);
      ghost var was := descs[..count];
      descs[count] := desc;
      count, total := count + 1, (total + desc.count) % WORD;
      assert descs[..count] == was + [desc];
      TotalLast(descs[..count]);
    }

    method Pop()
      requires Valid() && count > 0
      modifies this
      ensures Valid() && count == old(count) - 1 && List() == old(List())[..count]
    {
      TotalLast(descs[..count]);
      WordAdd(Total(descs[..count]), descs[count - 1].count);
      assert descs[..count][..count - 1] == descs[..count - 1];
      total := (total - descs[count - 1].count) % WORD;
      count := count - 1;
    }

    method Clear()
      requires Valid()
      modifies this
      ensures Valid() && List() == []
    {
      count, total := 0, 0;
    }

    /** The number of bytes of the stream, if it fits a word. */
    method ByteCount() returns (n: nat)
      requires Valid()
      ensures n == |Stream(List())| % WORD
    {
      StreamLength(descs[..count]);
      n := total;
    }

    /** The first loop of inout: past the descriptors that end before `offset`. */
    method SkipTo(offset: nat) returns (it: nat, o: nat)
      requires Valid()
      ensures it <= count && Skip(List(), offset) == (List()[it..], o)
    {
      ghost var list := List();
      it, o := 0, offset;
      assert list[0..] == list;
      while it < count && o >= descs[it].count
        invariant it <= count && Skip(list, offset) == Skip(list[it..], o)
      {
        assert list[it..][1..] == list[it + 1..];
        o := o - descs[it].count;
        it := it + 1;
      }
    }

    /**
     Copies along the plan, and says whether bytes were left over (the documentation says
     "true if successful").
     */
    method InOut(buffer: array<Byte>, len: nat, offset: nat, ds: array<Byte>, out: bool) returns (failed: bool)
      requires Valid() && NoWrap(List()) && len <= buffer.Length && buffer != ds && ds.Length < WORD
      modifies buffer, ds
      ensures var plan := Plan(List(), offset, len, ds.Length);
              && Copied(plan, |plan|, out, old(buffer[..]), buffer[..], old(ds[..]), ds[..])
              && (failed <==> |plan| < len)
    {
      hide Copied, OnPlan, Within, Plan, Total, Skip, NoWrap;
      ghost var list, size := List(), ds.Length;
      ghost var plan := Plan(list, offset, len, size);
      var it: nat, o: nat := SkipTo(offset);
      PlanStart(list, offset, len, size, it, o);
      var left := CopyAlong(descs[..count], it, o, buffer, len, ds, out, plan);
      failed := left > 0;
    }

    /** Reads `len` bytes from position `offset` of the stream; fails if that is past its end. */
    method In(dst: array<Byte>, len: nat, offset: nat, src: array<Byte>) returns (failed: bool)
      requires Valid() && NoWrap(List()) && len <= dst.Length && dst != src && src.Length < WORD
      modifies dst, src
      ensures src[..] == old(src[..])
      ensures InBounds(List(), src.Length) ==>
                var slice := Slice(List(), offset, len);
                && |slice| <= dst.Length && Within(slice, src.Length)
                && dst[..] == Gather(src[..], slice) + old(dst[..])[|slice|..]
                && (failed <==> |slice| < len)
    {
      PlanIsSlice(List(), offset, len, src.Length);
      hide Plan, Slice, Total, InBounds, NoWrap;
      failed := InOut(dst, len, offset, src, false);
      ghost var plan := Plan(List(), offset, len, src.Length);
      assert plan[..|plan|] == plan;
    }

    /** Writes `len` bytes to position `offset` of the stream; fails if that is past its end. */
    method Out(src: array<Byte>, len: nat, offset: nat, dst: array<Byte>) returns (failed: bool)
      requires Valid() && NoWrap(List()) && len <= src.Length && dst != src && dst.Length < WORD
      modifies src, dst
      ensures src[..] == old(src[..])
      ensures InBounds(List(), dst.Length) ==>
                var slice := Slice(List(), offset, len);
                && |slice| <= src.Length && Within(slice, dst.Length)
                && dst[..] == Scatter(old(dst[..]), slice, src[..|slice|])
                && (failed <==> |slice| < len)
    {
      PlanIsSlice(List(), offset, len, dst.Length);
      hide Plan, Slice, Total, InBounds, NoWrap, Scatter;
      failed := InOut(src, len, offset, dst, true);
      ghost var plan := Plan(List(), offset, len, dst.Length);
      assert plan[..|plan|] == plan;
    }
  }

  // ---------------------------------------------------------------- transferPIO

  datatype Operation = Read | Write

  /** After `done` bytes: a device has been sent the stream, or the stream has been filled from it. */
  ghost predicate Transferred(op: Operation, stream: seq<nat>, done: nat, mem0: seq<Byte>, mem: seq<Byte>,
                              device: seq<Byte>, sent: seq<Byte>) {
    && done <= |stream| && Within(stream[..done], |mem0|) && |mem| == |mem0|
    && (op.Write? ==> mem == mem0 && sent == Gather(mem0, stream[..done]))
    && (op.Read? ==> sent == [] && done <= |device| && mem == Scatter(mem0, stream[..done], device[..done]))
  }

  lemma {:induction false} TransferStart(op: Operation, stream: seq<nat>, mem: seq<Byte>, device: seq<Byte>)
    ensures Transferred(op, stream, 0, mem, mem, device, [])
  {
    assert stream[..0] == [] && device[..0] == [];
  }

  /** A plan from byte `off` on continues the stream there. */
  lemma {:induction false} PlanContinues(descs: seq<Desc>, off: nat, len: nat, size: nat)
    requires off <= |Stream(descs)|
    ensures var stream, plan := Stream(descs), Plan(descs, off, len, size);
            && off + |plan| <= |stream| && stream[..off + |plan|] == stream[..off] + plan
            && (InBounds(descs, size) ==> |plan| == Min(len, |stream| - off))
  {
    hide Stream, Plan, InBounds;
    var stream := Stream(descs);
    PlanIsSlice(descs, off, len, size);
    PrefixContinues(stream, off, Min(off + len, |stream|), Plan(descs, off, len, size));
  }

  lemma {:induction false} PrefixContinues(stream: seq<nat>, off: nat, to: nat, plan: seq<nat>)
    requires off <= to <= |stream| && plan <= stream[off..to]
    ensures off + |plan| <= to && stream[..off + |plan|] == stream[..off] + plan
  {
    var part := stream[off..to];
    assert plan == part[..|plan|];
    assert stream[..off + |plan|] == stream[..off] + stream[off..off + |plan|];
    assert part[..|plan|] == stream[off..off + |plan|];
  }

  lemma {:induction false} SectorSent(stream: seq<nat>, off: nat, plan: seq<nat>, mem0: seq<Byte>, mem: seq<Byte>,
                                      mem': seq<Byte>, device: seq<Byte>, sent: seq<Byte>, buf0: seq<Byte>, buf: seq<Byte>)
    requires Transferred(Write, stream, off, mem0, mem, device, sent)
    requires off + |plan| <= |stream| && stream[..off + |plan|] == stream[..off] + plan
    requires Copied(plan, |plan|, false, buf0, buf, mem, mem')
    ensures |plan| <= |buf| && Transferred(Write, stream, off, mem0, mem', device, sent)
    ensures Transferred(Write, stream, off + |plan|, mem0, mem', device, sent + buf[..|plan|])
  {
    assert plan[..|plan|] == plan;
    assert buf[..|plan|] == Gather(mem, plan);
    assert Gather(mem, stream[..off] + plan) == Gather(mem, stream[..off]) + Gather(mem, plan);
  }

  lemma {:induction false} SectorFilled(stream: seq<nat>, off: nat, plan: seq<nat>, mem0: seq<Byte>, mem: seq<Byte>,
                                        mem': seq<Byte>, device: seq<Byte>, buf: seq<Byte>, buf': seq<Byte>)
    requires Transferred(Read, stream, off, mem0, mem, device, [])
    requires off + |plan| <= |stream| && stream[..off + |plan|] == stream[..off] + plan
    requires off + |plan| <= |device| && |plan| <= |buf| && buf[..|plan|] == device[off..off + |plan|]
    requires Copied(plan, |plan|, true, buf, buf', mem, mem')
    ensures Transferred(Read, stream, off + |plan|, mem0, mem', device, [])
  {
    assert plan[..|plan|] == plan;
    assert device[..off + |plan|] == device[..off] + device[off..off + |plan|];
    ScatterJoin(mem0, stream[..off], device[..off], plan, buf[..|plan|]);
    hide Scatter;
  }

  /** inwords: the next bytes of the device. */
  method Receive(device: seq<Byte>, off: nat, n: nat, buffer: array<Byte>)
    requires off + n <= |device| && n <= buffer.Length
    modifies buffer
    ensures buffer[..n] == device[off..off + n]
  {
    for i := 0 to n
      invariant buffer[..i] == device[off..off + i]
    {
      buffer[i] := device[off + i];
    }
  }

  /** One round of the loop when writing to the device: the sector at byte `off`. */
  method SendSector(list: DescList, ds: array<Byte>, buffer: array<Byte>, secsize: nat, off: nat,
                    device: seq<Byte>, sent: seq<Byte>, ghost mem0: seq<Byte>)
    returns (failed: bool, sent': seq<Byte>)
    requires list.Valid() && NoWrap(list.List()) && secsize <= buffer.Length && buffer != ds && ds.Length < WORD
    requires off <= |Stream(list.List())|
    requires Transferred(Write, Stream(list.List()), off, mem0, ds[..], device, sent)
    modifies buffer, ds
    ensures list.Valid() && list.List() == old(list.List())
    ensures Transferred(Write, Stream(list.List()), if failed then off else off + secsize, mem0, ds[..], device, sent')
    ensures !failed ==> off + secsize <= |Stream(list.List())|
    ensures InBounds(list.List(), ds.Length) ==> (failed <==> off + secsize > |Stream(list.List())|)
  {
    hide Stream, Plan, Transferred, Copied, Total, InBounds, NoWrap;
    ghost var descs := list.List();
    ghost var stream, plan := Stream(descs), Plan(descs, off, secsize, ds.Length);
    PlanContinues(descs, off, secsize, ds.Length);
    ghost var buf0, mem := buffer[..], ds[..];
    failed := list.InOut(buffer, secsize, off, ds, false);
    SectorSent(stream, off, plan, mem0, mem, ds[..], device, sent, buf0, buffer[..]);
    sent' := if failed then sent else sent + buffer[..secsize];
  }

  /** One round of the loop when reading from the device: the sector at byte `off`. */
  method ReceiveSector(list: DescList, ds: array<Byte>, buffer: array<Byte>, secsize: nat, off: nat,
                       device: seq<Byte>, ghost mem0: seq<Byte>)
    returns (failed: bool, ghost done: nat)
    requires list.Valid() && NoWrap(list.List()) && secsize <= buffer.Length && buffer != ds && ds.Length < WORD
    requires off <= |Stream(list.List())| && off + secsize <= |device|
    requires Transferred(Read, Stream(list.List()), off, mem0, ds[..], device, [])
    modifies buffer, ds
    ensures list.Valid() && list.List() == old(list.List())
    ensures Transferred(Read, Stream(list.List()), done, mem0, ds[..], device, [])
    ensures !failed ==> done == off + secsize <= |Stream(list.List())|
    ensures InBounds(list.List(), ds.Length) ==>
              && (failed <==> off + secsize > |Stream(list.List())|)
              && done == Min(off + secsize, |Stream(list.List())|)
  {
    hide Stream, Plan, Transferred, Copied, Total, InBounds, NoWrap;
    ghost var descs := list.List();
    ghost var stream, plan := Stream(descs), Plan(descs, off, secsize, ds.Length);
    PlanContinues(descs, off, secsize, ds.Length);
    Receive(device, off, secsize, buffer);
    ghost var buf, mem := buffer[..], ds[..];
    failed := list.InOut(buffer, secsize, off, ds, true);
    done := off + |plan|;
    BufferPrefix(buf, device, off, secsize, |plan|);
    SectorFilled(stream, off, plan, mem0, mem, ds[..], device, buf, buffer[..]);
  }

  lemma {:induction false} BufferPrefix(buf: seq<Byte>, device: seq<Byte>, off: nat, n: nat, k: nat)
    requires off + n <= |device| && k <= n <= |buf| && buf[..n] == device[off..off + n]
    ensures buf[..k] == device[off..off + k]
  {
    assert buf[..k] == buf[..n][..k];
    assert device[off..off + k] == device[off..off + n][..k];
  }

  /**
   The sector loop of transferPIO. What was transferred is the beginning of the stream; without
   an error it is all of it, exactly as in one whole transfer. With descriptors in the dataspace
   there is no error exactly if the length of the stream is a multiple of the sector size.
   */
  method TransferPIO(op: Operation, list: DescList, ds: array<Byte>, buffer: array<Byte>, secsize: nat, device: seq<Byte>)
    returns (ok: bool, sent: seq<Byte>, ghost done: nat)
    requires list.Valid() && NoWrap(list.List()) && secsize <= buffer.Length && buffer != ds && ds.Length < WORD
    requires 0 < secsize && secsize % 2 == 0 && |Stream(list.List())| + secsize <= WORD
    requires op.Read? ==> |Stream(list.List())| + secsize <= |device|
    modifies buffer, ds
    ensures list.List() == old(list.List())
    ensures Transferred(op, Stream(list.List()), done, old(ds[..]), ds[..], device, sent)
    ensures ok ==> done == |Stream(list.List())|
    ensures InBounds(list.List(), ds.Length) ==>
              && (ok <==> |Stream(list.List())| % secsize == 0)
              && (op.Read? ==> done == |Stream(list.List())|)
  {
    hide Stream, Transferred, Total, InBounds, NoWrap;
    ghost var list0 := list.List();
    ghost var stream, mem0 := Stream(list0), ds[..];
    var length := list.ByteCount();
    var offset: nat := 0;
    sent, done := [], 0;
    TransferStart(op, stream, mem0, device);
    while length > offset
      invariant list.Valid() && list.List() == list0 && offset <= length && offset % secsize == 0
      invariant done == offset && (op.Read? ==> sent == [])
      invariant Transferred(op, stream, offset, mem0, ds[..], device, sent)
    {
      var failed;
      match op {
        case Write => failed, sent := SendSector(list, ds, buffer, secsize, offset, device, sent, mem0);
        case Read => failed, done := ReceiveSector(list, ds, buffer, secsize, offset, device, mem0);
      }
      SectorEnd(offset, length, secsize);
      if failed {
        return false, sent, done;
      }
      offset := offset + secsize;
      done := offset;
    }
    ok := true;
  }

  /** A sector that ends behind the stream shows that its length is no multiple. */
  lemma {:induction false} SectorEnd(offset: nat, length: nat, secsize: nat)
    requires secsize > 0 && offset % secsize == 0 && offset < length
    ensures (offset + secsize) % secsize == 0
    ensures offset + secsize > length ==> length % secsize != 0
  {
    var q := offset / secsize;
    DivModUnique(offset + secsize, secsize, q + 1, 0);
    if offset + secsize > length {
      DivModUnique(length, secsize, q, length - offset);
    }
  }
}
