/**
 The shape of a treap (nre/include/collection/Treap.h) as a value: a binary tree ordered by key
 and heap-ordered by priority, the smallest priority at the root.
 */
module TreapShape {

  datatype Item = Item(id: nat, key: nat, prio: int)

  datatype Tree = Leaf | Node(left: Tree, item: Item, right: Tree)

  function Items(t: Tree): set<Item> {
    if t.Leaf? then {} else Items(t.left) + {t.item} + Items(t.right)
  }

  /** Smaller keys to the left, larger ones to the right. */
  ghost predicate Ordered(t: Tree) {
    t.Node? ==>
      && Ordered(t.left) && Ordered(t.right)
      && (forall x :: x in Items(t.left) ==> x.key < t.item.key)
      && (forall x :: x in Items(t.right) ==> t.item.key < x.key)
  }

  /** Priorities strictly increase towards the leaves. */
  ghost predicate Heaped(t: Tree) {
    t.Node? ==>
      && Heaped(t.left) && Heaped(t.right)
      && (forall x :: x in Items(t.left) + Items(t.right) ==> t.item.prio < x.prio)
  }

  ghost predicate IsTreap(t: Tree) {
    Ordered(t) && Heaped(t)
  }

  /** What a node says about its parts. */
  lemma {:induction false} NodeParts(t: Tree)
    requires t.Node? && IsTreap(t)
    ensures IsTreap(t.left) && IsTreap(t.right) && Items(t) == Items(t.left) + {t.item} + Items(t.right)
    ensures forall x :: x in Items(t.left) ==> x.key < t.item.key && t.item.prio < x.prio
    ensures forall x :: x in Items(t.right) ==> t.item.key < x.key && t.item.prio < x.prio
  {}

  /** A node put together from its parts. */
  lemma {:induction false} NodeFrom(l: Tree, x: Item, r: Tree)
    requires IsTreap(l) && IsTreap(r)
    requires forall y :: y in Items(l) ==> y.key < x.key && x.prio < y.prio
    requires forall y :: y in Items(r) ==> x.key < y.key && x.prio < y.prio
    ensures IsTreap(Node(l, x, r)) && Items(Node(l, x, r)) == Items(l) + {x} + Items(r)
  {}

  // ---------------------------------------------------------------- the shape is canonical

  lemma {:induction false} RootIsLeast(t: Tree, x: Item)
    requires t.Node? && Heaped(t) && x in Items(t)
    ensures t.item.prio <= x.prio && (t.item.prio == x.prio ==> x == t.item)
  {}

  /** There is exactly one treap for a set of items. */
  lemma {:induction false} ShapeIsUnique(t: Tree, u: Tree)
    requires IsTreap(t) && IsTreap(u) && Items(t) == Items(u)
    ensures t == u
    decreases t
  {
    if t.Node? {
      assert t.item in Items(u);
      assert u.item in Items(t);
      RootIsLeast(t, u.item);
      RootIsLeast(u, t.item);
      SidesByKey(t);
      SidesByKey(u);
      ShapeIsUnique(t.left, u.left);
      ShapeIsUnique(t.right, u.right);
    } else {
      EmptyIsLeaf(u);
    }
  }

  lemma {:induction false} EmptyIsLeaf(t: Tree)
    ensures Items(t) == {} <==> t.Leaf?
  {
    assert t.Node? ==> t.item in Items(t);
  }

  lemma {:induction false} SidesByKey(t: Tree)
    requires t.Node? && Ordered(t)
    ensures Items(t.left) == set x | x in Items(t) && x.key < t.item.key
    ensures Items(t.right) == set x | x in Items(t) && t.item.key < x.key
  {}

  // ---------------------------------------------------------------- insertion

  /** The parts of `t` below and above `key`. */
  function Split(t: Tree, key: nat): (Tree, Tree) {
    if t.Leaf? then (Leaf, Leaf)
    else if key < t.item.key then
      var (l, r) := Split(t.left, key);
      (l, t.(left := r))
    else
      var (l, r) := Split(t.right, key);
      (t.(right := l), r)
  }

  /** Descend while the priorities are smaller, then make `x` the root of the split rest. */
  function Insert(t: Tree, x: Item): Tree {
    if t.Node? && t.item.prio < x.prio then
      if x.key < t.item.key then t.(left := Insert(t.left, x)) else t.(right := Insert(t.right, x))
    else
      var (l, r) := Split(t, x.key);
      Node(l, x, r)
  }

  ghost predicate Fresh(t: Tree, x: Item) {
    forall y :: y in Items(t) ==> y.key != x.key && y.prio != x.prio && y.id != x.id
  }

  lemma {:induction false} SplitItems(t: Tree, key: nat)
    requires IsTreap(t) && forall y :: y in Items(t) ==> y.key != key
    ensures var (l, r) := Split(t, key);
            && IsTreap(l) && IsTreap(r)
            && Items(l) + Items(r) == Items(t)
            && (forall y :: y in Items(l) ==> y.key < key)
            && (forall y :: y in Items(r) ==> key < y.key)
  {
    if t.Leaf? {
      NoItems();
    } else {
      hide Items, IsTreap, Ordered, Heaped;
      NodeParts(t);
      if key < t.item.key {
        SplitItems(t.left, key);
        NodeFrom(Split(t.left, key).1, t.item, t.right);
      } else {
        SplitItems(t.right, key);
        NodeFrom(t.left, t.item, Split(t.right, key).0);
      }
    }
  }

  lemma {:induction false} InsertItems(t: Tree, x: Item)
    requires IsTreap(t) && Fresh(t, x)
    ensures IsTreap(Insert(t, x)) && Items(Insert(t, x)) == Items(t) + {x}
  {
    if t.Node? && t.item.prio < x.prio {
      InsertItems(if x.key < t.item.key then t.left else t.right, x);
    } else {
      InsertAtRoot(t, x);
    }
  }

  lemma {:induction false} InsertAtRoot(t: Tree, x: Item)
    requires IsTreap(t) && Fresh(t, x) && (t.Node? ==> x.prio <= t.item.prio)
    ensures IsTreap(Insert(t, x)) && Items(Insert(t, x)) == Items(t) + {x}
  {
    SplitItems(t, x.key);
    if t.Node? {
      forall y | y in Items(t) ensures x.prio < y.prio { RootIsLeast(t, y); }
    }
  }

  // ---------------------------------------------------------------- removal

  /** What remove_from leaves in place of a node with these two subtrees. */
  function Join(l: Tree, r: Tree): Tree
    decreases l, r
  {
    if l.Leaf? then r
    else if r.Leaf? then l
    else if l.item.prio < r.item.prio then l.(right := Join(l.right, r))
    else r.(left := Join(l, r.left))
  }

  function Remove(t: Tree, x: Item): Tree {
    if t.Leaf? then Leaf
    else if t.item == x then Join(t.left, t.right)
    else if x.key < t.item.key then t.(left := Remove(t.left, x))
    else t.(right := Remove(t.right, x))
  }

  lemma {:induction false} JoinItems(l: Tree, r: Tree)
    requires IsTreap(l) && IsTreap(r)
    requires forall x, y :: x in Items(l) && y in Items(r) ==> x.key < y.key && x.prio != y.prio
    ensures IsTreap(Join(l, r)) && Items(Join(l, r)) == Items(l) + Items(r)
    decreases l, r
  {
    if l.Leaf? || r.Leaf? {
      NoItems();
    } else {
      hide Items, IsTreap, Ordered, Heaped;
      NodeParts(l);
      NodeParts(r);
      assert l.item in Items(l) && r.item in Items(r);
      if l.item.prio < r.item.prio {
        forall y | y in Items(r) ensures l.item.prio < y.prio { LeastPrio(r, y); }
        JoinItems(l.right, r);
        NodeFrom(l.left, l.item, Join(l.right, r));
      } else {
        forall y | y in Items(l) ensures r.item.prio < y.prio { LeastPrio(l, y); }
        JoinItems(l, r.left);
        NodeFrom(Join(l, r.left), r.item, r.right);
      }
    }
  }

  lemma {:induction false} NoItems()
    ensures Items(Leaf) == {}
  {}

  lemma {:induction false} LeastPrio(t: Tree, x: Item)
    requires t.Node? && IsTreap(t) && x in Items(t)
    ensures t.item.prio <= x.prio
  {
    RootIsLeast(t, x);
  }

  ghost predicate DistinctPrios(t: Tree) {
    forall x, y :: x in Items(t) && y in Items(t) && x.prio == y.prio ==> x == y
  }

  lemma {:induction false} RemoveItems(t: Tree, x: Item)
    requires IsTreap(t) && DistinctPrios(t) && x in Items(t)
    ensures IsTreap(Remove(t, x)) && Items(Remove(t, x)) == Items(t) - {x}
  {
    if t.Leaf? {
      NoItems();
    } else {
      hide Items, IsTreap, Ordered, Heaped;
      NodeParts(t);
      if t.item == x {
        JoinItems(t.left, t.right);
      } else if x.key < t.item.key {
        RemoveItems(t.left, x);
        NodeFrom(Remove(t.left, x), t.item, t.right);
      } else {
        RemoveItems(t.right, x);
        NodeFrom(t.left, t.item, Remove(t.right, x));
      }
    }
  }

  /** Removing a freshly inserted node restores the identical tree. */
  lemma {:induction false} InsertRemove(t: Tree, x: Item)
    requires IsTreap(t) && DistinctPrios(t) && Fresh(t, x)
    ensures Remove(Insert(t, x), x) == t
  {
    InsertItems(t, x);
    RemoveItems(Insert(t, x), x);
    ShapeIsUnique(Remove(Insert(t, x), x), t);
  }

  /** The order of two insertions does not matter. */
  lemma {:induction false} InsertCommutes(t: Tree, x: Item, y: Item)
    requires IsTreap(t) && Fresh(t, x) && Fresh(t, y)
    requires x.key != y.key && x.prio != y.prio && x.id != y.id
    ensures Insert(Insert(t, x), y) == Insert(Insert(t, y), x)
  {
    InsertItems(t, x);
    InsertItems(t, y);
    InsertItems(Insert(t, x), y);
    InsertItems(Insert(t, y), x);
    ShapeIsUnique(Insert(Insert(t, x), y), Insert(Insert(t, y), x));
  }

  // ---------------------------------------------------------------- lookup

  function Find(t: Tree, key: nat): set<Item> {
    if t.Leaf? then {}
    else if t.item.key == key then {t.item}
    else if key < t.item.key then Find(t.left, key)
    else Find(t.right, key)
  }

  /** Searching by key agrees with scanning all items. */
  lemma {:induction false} FindIsScan(t: Tree, key: nat)
    requires Ordered(t)
    ensures Find(t, key) == set x | x in Items(t) && x.key == key
  {
    if t.Node? && t.item.key != key {
      FindIsScan(if key < t.item.key then t.left else t.right, key);
    }
  }
}
