/**
 DataSpaceManager (nre/include/mem/DataSpaceManager.h): reference-counted dataspaces in a fixed
 slot array. Unused slots form a free list; used slots are the nodes of a treap whose keys are
 the unmap selectors. Slot i of the array is cell i of the treap.
 */
module DataSpaces {
  import opened Bits
  import opened TreapShape
  import opened TreapLinks
  import opened Treaps
  import opened Wrappers

  const MAX_SLOTS: nat := 512

  /** A dataspace: its selector and its unmap selector (`desc` stands for the description). */
  datatype DataSpace = DataSpace(sel: nat, unmapsel: nat, desc: nat)

  datatype Slot = Slot(ds: Option<DataSpace>, refs: nat, next: Link)

  datatype Outcome = Done(ds: DataSpace) | NoFreeSlot | NotFound

  // ---------------------------------------------------------------- the free list

  /** Starting at `l`, the `next` links run through the slots `ids`. */
  predicate Chain(slots: seq<Slot>, l: Link, ids: seq<nat>)
    decreases |ids|
  {
    if ids == [] then l == Null
    else l == To(ids[0]) && ids[0] < |slots| && Chain(slots, slots[ids[0]].next, ids[1..])
  }

  lemma {:induction false} ChainFrame(slots: seq<Slot>, slots': seq<Slot>, l: Link, ids: seq<nat>)
    requires Chain(slots, l, ids) && |slots| == |slots'|
    requires forall i :: i in ids && i < |slots| ==> slots'[i].next == slots[i].next
    ensures Chain(slots', l, ids)
    decreases |ids|
  {
    if ids != [] {
      ChainFrame(slots, slots', slots[ids[0]].next, ids[1..]);
    }
  }

  predicate NoRepeats(ids: seq<nat>) {
    forall i, j :: 0 <= i < j < |ids| ==> ids[i] != ids[j]
  }

  // ---------------------------------------------------------------- the reference ledger

  /** What clients did with the dataspace that has the given unmap selector. */
  datatype Event = Opened(unmapsel: nat) | Released(unmapsel: nat)

  /** Creates and joins minus releases. */
  function Balance(log: seq<Event>, unmapsel: nat): int {
    if log == [] then 0
    else
      Balance(log[..|log| - 1], unmapsel)
      + (match log[|log| - 1]
         case Opened(u) => if u == unmapsel then 1 else 0
         case Released(u) => if u == unmapsel then -1 else 0)
  }

  lemma {:induction false} BalanceStep(log: seq<Event>, e: Event, unmapsel: nat)
    ensures Balance(log + [e], unmapsel)
            == Balance(log, unmapsel) + (if e.unmapsel != unmapsel then 0 else if e.Opened? then 1 else -1)
  {
    assert (log + [e])[..|log|] == log;
  }

  predicate Used(slots: seq<Slot>, i: int, unmapsel: nat) {
    0 <= i < |slots| && slots[i].ds.Some? && slots[i].ds.value.unmapsel == unmapsel
  }

  // ---------------------------------------------------------------- the invariant

  /** A slot of the treap holds a referenced dataspace, any other slot is in the free list. */
  predicate SlotOk(c: Slot, isFree: bool, isNode: bool) {
    isFree == !isNode && isNode == c.ds.Some? && c.ds.Some? == (c.refs > 0)
  }

  /** Every slot is in exactly one of free list and treap (`ids`), and its content says which. */
  ghost predicate Partition(slots: seq<Slot>, free: Link, freeIds: seq<nat>, ids: set<nat>) {
    && Chain(slots, free, freeIds) && NoRepeats(freeIds)
    && (forall i :: 0 <= i < |slots| ==> SlotOk(slots[i], i in freeIds, i in ids))
    && (forall i :: i in ids ==> i < |slots|)
  }

  /** The treap node of a used slot carries its unmap selector as key. */
  ghost predicate Indexed(slots: seq<Slot>, t: Tree) {
    forall x :: x in Items(t) ==> Used(slots, x.id, x.key)
  }

  /** Reference counts are creates plus joins minus releases; nothing else is referenced. */
  ghost predicate Counted(slots: seq<Slot>, log: seq<Event>) {
    && (forall i, u :: Used(slots, i, u) ==> slots[i].refs == Balance(log, u))
    && (forall u :: (forall i :: !Used(slots, i, u)) ==> Balance(log, u) == 0)
  }

  ghost predicate Unambiguous(slots: seq<Slot>) {
    forall i, j, u :: Used(slots, i, u) && Used(slots, j, u) ==> i == j
  }

  ghost predicate Consistent(slots: seq<Slot>, free: Link, freeIds: seq<nat>, t: Tree, log: seq<Event>) {
    Partition(slots, free, freeIds, Ids(t)) && Indexed(slots, t) && Counted(slots, log) && Unambiguous(slots)
  }

  // ---------------------------------------------------------------- transitions

  function Refs(c: Slot): nat {
    if c.ds.Some? then c.refs else 0
  }

  /** An event on the dataspace of slot `i`, matched by the slot's count, keeps the ledger. */
  lemma {:induction false} CountedStep(slots: seq<Slot>, log: seq<Event>, i: nat, c: Slot, e: Event)
    requires Counted(slots, log) && i < |slots|
    requires slots[i].ds.Some? ==> slots[i].ds.value.unmapsel == e.unmapsel
    requires c.ds.Some? ==> c.ds.value.unmapsel == e.unmapsel
    requires forall j :: j != i ==> !Used(slots, j, e.unmapsel)
    requires Refs(c) == Refs(slots[i]) + (if e.Opened? then 1 else -1)
    ensures Counted(slots[i := c], log + [e])
  {
    var u, slots', log' := e.unmapsel, slots[i := c], log + [e];
    forall v ensures Balance(log', v) == Balance(log, v) + (if v != u then 0 else if e.Opened? then 1 else -1) {
      BalanceStep(log, e, v);
    }
    hide Balance;
    assert forall j, v :: j != i || v != u ==> (Used(slots', j, v) <==> Used(slots, j, v));
    assert Used(slots', i, u) <==> c.ds.Some?;
    assert Used(slots, i, u) <==> slots[i].ds.Some?;
    assert Balance(log, u) == Refs(slots[i]) by {
      if !slots[i].ds.Some? { assert forall j :: !Used(slots, j, u); }
    }
    forall v | forall j :: !Used(slots', j, v) ensures Balance(log', v) == 0 {
      if v != u { assert forall j :: !Used(slots, j, v); }
    }
  }

  lemma {:induction false} PartitionTake(slots: seq<Slot>, free: Link, freeIds: seq<nat>, ids: set<nat>, d: DataSpace)
    requires Partition(slots, free, freeIds, ids) && freeIds != []
    ensures var i := freeIds[0];
            && i < |slots| && slots[i].ds.None? && free == To(i)
            && Partition(slots[i := Slot(Some(d), 1, slots[i].next)], slots[i].next, freeIds[1..], ids + {i})
  {
    var i := freeIds[0];
    var slots' := slots[i := Slot(Some(d), 1, slots[i].next)];
    assert i in freeIds;
    ChainFrame(slots, slots', slots[i].next, freeIds[1..]);
    hide Chain;
    assert forall j :: j in freeIds <==> j == i || j in freeIds[1..];
  }

  lemma {:induction false} PartitionFree(slots: seq<Slot>, free: Link, freeIds: seq<nat>, ids: set<nat>, i: nat)
    requires Partition(slots, free, freeIds, ids) && i < |slots| && slots[i].ds.Some?
    ensures Partition(slots[i := Slot(None, 0, free)], To(i), [i] + freeIds, ids - {i})
  {
    var slots' := slots[i := Slot(None, 0, free)];
    assert i !in freeIds;
    ChainFrame(slots, slots', free, freeIds);
    assert ([i] + freeIds)[1..] == freeIds;
    assert Chain(slots', To(i), [i] + freeIds);
    hide Chain;
    assert forall j :: j in [i] + freeIds <==> j == i || j in freeIds;
  }

  lemma {:induction false} TakeSlot(slots: seq<Slot>, free: Link, freeIds: seq<nat>, t: Tree, log: seq<Event>,
                                    d: DataSpace, x: Item, t': Tree)
    requires Consistent(slots, free, freeIds, t, log) && freeIds != []
    requires x.id == freeIds[0] && x.key == d.unmapsel && forall i :: !Used(slots, i, d.unmapsel)
    requires Items(t') == Items(t) + {x} && Ids(t') == Ids(t) + {x.id}
    ensures var i := freeIds[0];
            i < |slots| && Consistent(slots[i := Slot(Some(d), 1, slots[i].next)], slots[i].next, freeIds[1..], t', log + [Opened(d.unmapsel)])
  {
    hide Items, Ids, Partition, Counted;
    var i := freeIds[0];
    PartitionTake(slots, free, freeIds, Ids(t), d);
    var c := Slot(Some(d), 1, slots[i].next);
    var slots' := slots[i := c];
    CountedStep(slots, log, i, c, Opened(d.unmapsel));
    assert forall j, v :: Used(slots', j, v) ==> (j == i && v == d.unmapsel) || Used(slots, j, v);
    assert forall j, v :: j != i && Used(slots, j, v) ==> Used(slots', j, v);
  }

  /** One more or one less reference to a slot that stays in use. */
  lemma {:induction false} Recount(slots: seq<Slot>, free: Link, freeIds: seq<nat>, t: Tree, log: seq<Event>, i: nat, e: Event)
    requires Consistent(slots, free, freeIds, t, log) && Used(slots, i, e.unmapsel)
    requires e.Released? ==> slots[i].refs > 1
    ensures var refs := if e.Opened? then slots[i].refs + 1 else slots[i].refs - 1;
            Consistent(slots[i := slots[i].(refs := refs)], free, freeIds, t, log + [e])
  {
    var c := slots[i].(refs := if e.Opened? then slots[i].refs + 1 else slots[i].refs - 1);
    var slots' := slots[i := c];
    ChainFrame(slots, slots', free, freeIds);
    CountedStep(slots, log, i, c, e);
    hide Items, Ids, Chain, Counted;
    assert forall j, v :: Used(slots', j, v) <==> Used(slots, j, v);
  }

  lemma {:induction false} FreeSlot(slots: seq<Slot>, free: Link, freeIds: seq<nat>, t: Tree, log: seq<Event>,
                                    i: nat, u: nat, x: Item, t': Tree)
    requires Consistent(slots, free, freeIds, t, log) && Used(slots, i, u) && slots[i].refs == 1
    requires x.id == i && Items(t') == Items(t) - {x} && Ids(t') == Ids(t) - {i}
    ensures Consistent(slots[i := Slot(None, 0, free)], To(i), [i] + freeIds, t', log + [Released(u)])
  {
    hide Items, Ids, Partition, Counted;
    var c := Slot(None, 0, free);
    var slots' := slots[i := c];
    PartitionFree(slots, free, freeIds, Ids(t), i);
    CountedStep(slots, log, i, c, Released(u));
    ItemsIds(t');
    assert forall j, v :: Used(slots', j, v) ==> Used(slots, j, v);
    assert forall y :: y in Items(t') ==> y.id != i;
    assert forall j, v :: j != i && Used(slots, j, v) ==> Used(slots', j, v);
  }

  // ---------------------------------------------------------------- lookup

  /** Searching the treap agrees with scanning the slots. */
  lemma {:induction false} IndexFindsAll(slots: seq<Slot>, free: Link, freeIds: seq<nat>, t: Tree, log: seq<Event>, sel: nat)
    requires Consistent(slots, free, freeIds, t, log)
    ensures (exists x :: x in Items(t) && x.key == sel) <==> exists i :: Used(slots, i, sel)
    ensures forall x :: x in Items(t) && x.key == sel ==> Used(slots, x.id, sel)
  {
    ItemsIds(t);
    hide Items, Ids, Chain, Counted;
    forall i | Used(slots, i, sel) ensures exists x :: x in Items(t) && x.key == sel {
      assert SlotOk(slots[i], i in freeIds, i in Ids(t));
      var x :| x in Items(t) && x.id == i;
      assert Used(slots, x.id, x.key);
    }
  }

  lemma {:induction false} PushFree(slots: seq<Slot>, slots': seq<Slot>, i: nat, free: Link, freeIds: seq<nat>)
    requires i < |slots| && slots' == slots[i := slots[i].(next := free)]
    requires Chain(slots, free, freeIds) && NoRepeats(freeIds) && i !in freeIds
    ensures Chain(slots', To(i), [i] + freeIds) && NoRepeats([i] + freeIds)
  {
    ChainFrame(slots, slots', free, freeIds);
    assert ([i] + freeIds)[1..] == freeIds;
  }

  lemma {:induction false} UsedOnce(slots: seq<Slot>, free: Link, freeIds: seq<nat>, t: Tree, log: seq<Event>, i: nat, sel: nat)
    requires Consistent(slots, free, freeIds, t, log) && Used(slots, i, sel)
    ensures i in Ids(t) && slots[i].refs > 0
    ensures forall j :: Used(slots, j, sel) ==> j == i
  {
    assert SlotOk(slots[i], i in freeIds, i in Ids(t));
    assert Unambiguous(slots);
  }

  predicate HasSel(s: Slot, sel: nat) {
    s.ds.Some? && s.ds.value.sel == sel
  }

  /** Slot `i` is the first one with this selector. */
  predicate First(slots: seq<Slot>, i: int, sel: nat) {
    0 <= i < |slots| && HasSel(slots[i], sel) && forall j :: 0 <= j < i ==> !HasSel(slots[j], sel)
  }

  /** One free slot was given to `d`, with one reference. */
  ghost predicate SlotGiven(before: seq<Slot>, after: seq<Slot>, d: DataSpace) {
    exists i :: 0 <= i < |before| && before[i].ds.None? && after == before[i := Slot(Some(d), 1, before[i].next)]
  }

  /** A slot with one reference less; the last one puts it in front of the free list. */
  function AfterRelease(s: Slot, free: Link): Slot {
    if s.refs <= 1 then Slot(None, 0, free) else s.(refs := s.refs - 1)
  }

  class DataSpaceManager {
    const tree: Treap
    const slots: array<Slot>
    var free: Link
    ghost var freeIds: seq<nat>
    ghost var log: seq<Event>

    ghost predicate Valid()
      reads this, tree, slots
    {
      && slots.Length == MAX_SLOTS && |tree.store.cells| == MAX_SLOTS
      && tree.Valid() && Consistent(slots[..], free, freeIds, tree.tree, log)
    }

    constructor ()
      ensures Valid() && log == [] && tree.inserts == 0
      ensures forall i :: i in freeIds <==> 0 <= i < MAX_SLOTS
      ensures fresh(tree) && fresh(slots)
    {
      tree := new Treap(MAX_SLOTS);
      slots := new Slot[MAX_SLOTS](_ => Slot(None, 0, Null));
      free := Null;
      freeIds := [];
      log := [];
      new;
      for i := 0 to MAX_SLOTS
        invariant Chain(slots[..], free, freeIds) && NoRepeats(freeIds)
        invariant forall j :: j in freeIds <==> 0 <= j < i
        invariant forall j :: 0 <= j < MAX_SLOTS ==> slots[j].ds.None? && slots[j].refs == 0
        invariant fresh(slots) && fresh(tree) && tree.Valid() && tree.tree == Leaf && |tree.store.cells| == MAX_SLOTS
        invariant log == [] && tree.inserts == 0
      {
        ghost var before := slots[..];
        slots[i] := slots[i].(next := free);
        PushFree(before, slots[..], i, free, freeIds);
        hide Chain, NoRepeats;
        free := To(i);
        freeIds := [i] + freeIds;
      }
      assert forall i :: 0 <= i < MAX_SLOTS ==> SlotOk(slots[..][i], i in freeIds, i in Ids(tree.tree));
    }

    /** find_unmap: by unmap selector, through the treap. */
    method FindUnmap(sel: nat) returns (l: Link)
      requires Valid()
      ensures l.Null? <==> forall i :: !Used(slots[..], i, sel)
      ensures l.To? ==> Used(slots[..], l.id, sel)
    {
      hide Items, Ids, Consistent, Used, Good;
      ghost var now := slots[..];
      l := tree.Find(sel);
      IndexFindsAll(now, free, freeIds, tree.tree, log, sel);
      assert l.To? ==> Used(now, l.id, sel);
      assert l.Null? ==> !exists x :: x in Items(tree.tree) && x.key == sel;
      assert l.Null? ==> !exists i :: Used(now, i, sel);
      assert slots[..] == now;
    }

    /** find: by selector, scanning the slots. */
    method FindSel(sel: nat) returns (l: Link)
      requires Valid()
      ensures l.To? ==> First(slots[..], l.id, sel)
      ensures l.Null? ==> forall i :: 0 <= i < MAX_SLOTS ==> !HasSel(slots[i], sel)
    {
      hide Consistent;
      for i := 0 to MAX_SLOTS
        invariant forall j :: 0 <= j < i ==> !HasSel(slots[j], sel)
      {
        if slots[i].ds.Some? && slots[i].ds.value.sel == sel { return To(i); }
      }
      return Null;
    }

    /** create: `d` is what the dataspace constructor delivers, with an unused unmap selector. */
    method Create(d: DataSpace) returns (r: Outcome)
      requires Valid() && tree.inserts < WORD
      requires forall i :: !Used(slots[..], i, d.unmapsel)
      modifies this, tree, slots
      ensures Valid()
      ensures r == if old(freeIds) == [] then NoFreeSlot else Done(d)
      ensures r.NoFreeSlot? ==> slots[..] == old(slots[..]) && log == old(log) && (forall i :: 0 <= i < MAX_SLOTS ==> slots[i].ds.Some?)
      ensures r.Done? ==> log == old(log) + [Opened(d.unmapsel)]
      ensures r.Done? ==> SlotGiven(old(slots[..]), slots[..], d)
    {
      if free.Null? {
        assert forall i :: 0 <= i < MAX_SLOTS ==> SlotOk(slots[..][i], i in freeIds, i in Ids(tree.tree));
        return NoFreeSlot;
      }
      PartitionTake(slots[..], free, freeIds, Ids(tree.tree), d);
      IndexFindsAll(slots[..], free, freeIds, tree.tree, log, d.unmapsel);
      ghost var before, t, ids := slots[..], tree.tree, freeIds;
      var i := free.id;
      assert SlotOk(slots[..][i], i in freeIds, i in Ids(t));
      hide Items, Ids, Chain, Partition, Indexed, Counted, Unambiguous;
      free := slots[i].next;
      slots[i] := Slot(Some(d), 1, slots[i].next);
      tree.SetKey(i, d.unmapsel);
      tree.Insert(i);
      TakeSlot(before, To(i), ids, t, log, d, Item(i, d.unmapsel, PrioAt(old(tree.inserts))), tree.tree);
      freeIds := freeIds[1..];
      log := log + [Opened(d.unmapsel)];
      r := Done(d);
    }

    /**
     join: one more reference to the dataspace with selector `sel`, or else a new one; `d` is
     what the dataspace constructor delivers in that case.
     */
    method Join(sel: nat, d: DataSpace) returns (r: Outcome)
      requires Valid() && tree.inserts < WORD
      requires d.sel == sel
      requires (forall i :: 0 <= i < MAX_SLOTS ==> !HasSel(slots[i], sel)) ==> forall i :: !Used(slots[..], i, d.unmapsel)
      modifies this, tree, slots
      ensures Valid()
      ensures forall i :: First(old(slots[..]), i, sel) ==>
                            && r == Done(old(slots[..])[i].ds.value)
                            && slots[..] == old(slots[..])[i := old(slots[..])[i].(refs := old(slots[..])[i].refs + 1)]
      ensures (forall i :: !First(old(slots[..]), i, sel)) ==>
                && r == (if old(freeIds) == [] then NoFreeSlot else Done(d))
                && (r.Done? ==> SlotGiven(old(slots[..]), slots[..], d))
      ensures r.Done? ==> log == old(log) + [Opened(r.ds.unmapsel)]
      ensures !r.Done? ==> slots[..] == old(slots[..]) && log == old(log)
    {
      hide Consistent, Items, Ids;
      var l := FindSel(sel);
      if l.Null? {
        r := Create(d);
      } else {
        var i := l.id;
        ghost var before := slots[..];
        var ds := slots[i].ds.value;
        assert Used(before, i, ds.unmapsel);
        Recount(before, free, freeIds, tree.tree, log, i, Opened(ds.unmapsel));
        slots[i] := slots[i].(refs := slots[i].refs + 1);
        log := log + [Opened(ds.unmapsel)];
        assert slots[..] == before[i := before[i].(refs := before[i].refs + 1)];
        r := Done(ds);
      }
    }

    /** release: one reference less; the last one destroys the dataspace and frees its slot. */
    method Release(sel: nat) returns (r: Outcome, destroyed: bool)
      requires Valid()
      modifies this, tree, slots
      ensures Valid()
      ensures r.NotFound? <==> forall i :: !Used(old(slots[..]), i, sel)
      ensures r.NotFound? ==> !destroyed && slots[..] == old(slots[..]) && log == old(log)
      ensures !r.NotFound? ==> log == old(log) + [Released(sel)]
      ensures forall i :: Used(old(slots[..]), i, sel) ==>
                            && r == Done(old(slots[..])[i].ds.value) && (destroyed <==> old(slots[..])[i].refs == 1)
                            && slots[..] == old(slots[..])[i := AfterRelease(old(slots[..])[i], old(free))]
      ensures destroyed ==> forall i :: !Used(slots[..], i, sel)
    {
      hide Items, Ids, Consistent;
      var l := FindUnmap(sel);
      destroyed := false;
      if l.Null? {
        return NotFound, false;
      }
      var i := l.id;
      ghost var before, t := slots[..], tree.tree;
      var ds := slots[i].ds.value;
      r := Done(ds);
      UsedOnce(before, free, freeIds, t, log, i, sel);
      if slots[i].refs == 1 {
        var x := tree.Remove(i);
        FreeSlot(before, free, freeIds, t, log, i, sel, x, tree.tree);
        slots[i] := Slot(None, 0, free);
        free := To(i);
        freeIds := [i] + freeIds;
        destroyed := true;
      } else {
        Recount(before, free, freeIds, t, log, i, Released(sel));
        slots[i] := slots[i].(refs := slots[i].refs - 1);
        assert Used(slots[..], i, sel);
      }
      log := log + [Released(sel)];
    }
  }
}
