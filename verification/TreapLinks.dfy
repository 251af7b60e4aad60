/**
 Treap nodes in memory. A node is a cell of a slot array, a pointer is a slot index, and a
 pointer to a pointer (the `node_t **` of the source) is a reference to the root or to one of
 the two link fields of a cell.
 */
module TreapLinks {
  import opened TreapShape

  datatype Link = Null | To(id: nat)

  datatype Cell = Cell(key: nat, prio: int, left: Link, right: Link)

  datatype Ref = Root | LeftOf(id: nat) | RightOf(id: nat)

  datatype Store = Store(cells: seq<Cell>, root: Link)

  function Load(s: Store, r: Ref): Link {
    match r
    case Root => s.root
    case LeftOf(i) => if i < |s.cells| then s.cells[i].left else Null
    case RightOf(i) => if i < |s.cells| then s.cells[i].right else Null
  }

  function Save(s: Store, r: Ref, v: Link): Store {
    match r
    case Root => s.(root := v)
    case LeftOf(i) => if i < |s.cells| then s.(cells := s.cells[i := s.cells[i].(left := v)]) else s
    case RightOf(i) => if i < |s.cells| then s.(cells := s.cells[i := s.cells[i].(right := v)]) else s
  }

  function Ids(t: Tree): set<nat> {
    if t.Leaf? then {} else Ids(t.left) + {t.item.id} + Ids(t.right)
  }

  /** No cell occurs twice. */
  predicate Proper(t: Tree) {
    t.Node? ==>
      && Proper(t.left) && Proper(t.right)
      && t.item.id !in Ids(t.left) && t.item.id !in Ids(t.right) && Ids(t.left) !! Ids(t.right)
  }

  predicate IsCell(s: Store, x: Item) {
    x.id < |s.cells| && s.cells[x.id].key == x.key && s.cells[x.id].prio == x.prio
  }

  /** The link `l` leads to the tree `t`. */
  predicate Holds(s: Store, l: Link, t: Tree)
    decreases t
  {
    match t
    case Leaf => l == Null
    case Node(left, x, right) =>
      && l == To(x.id) && IsCell(s, x)
      && Holds(s, s.cells[x.id].left, left) && Holds(s, s.cells[x.id].right, right)
  }

  // ---------------------------------------------------------------- a tree with a hole

  /** The way from the root of a tree down to a hole. */
  datatype Path = Top | Step(up: Path, item: Item, toLeft: bool, sibling: Tree)

  function Plug(p: Path, t: Tree): Tree {
    match p
    case Top => t
    case Step(up, x, true, sibling) => Plug(up, Node(t, x, sibling))
    case Step(up, x, false, sibling) => Plug(up, Node(sibling, x, t))
  }

  function PathIds(p: Path): set<nat> {
    if p.Top? then {} else PathIds(p.up) + {p.item.id} + Ids(p.sibling)
  }

  predicate ProperPath(p: Path) {
    p.Step? ==>
      && ProperPath(p.up) && Proper(p.sibling)
      && p.item.id !in PathIds(p.up) && p.item.id !in Ids(p.sibling) && PathIds(p.up) !! Ids(p.sibling)
  }

  /** Where the hole is stored. */
  function RefOf(base: Ref, p: Path): Ref {
    match p
    case Top => base
    case Step(_, x, true, _) => LeftOf(x.id)
    case Step(_, x, false, _) => RightOf(x.id)
  }

  function Other(s: Store, p: Path): Link
    requires p.Step?
  {
    Load(s, if p.toLeft then RightOf(p.item.id) else LeftOf(p.item.id))
  }

  /** Starting at `base`, the links of `s` follow the path, and `hole` is stored at its end. */
  predicate HoldsPath(s: Store, base: Ref, p: Path, hole: Link)
    decreases p
  {
    && Load(s, RefOf(base, p)) == hole
    && (p.Step? ==>
          && IsCell(s, p.item) && Holds(s, Other(s, p), p.sibling)
          && HoldsPath(s, base, p.up, To(p.item.id)))
  }

  lemma {:induction false} PlugHolds(s: Store, base: Ref, p: Path, hole: Link, t: Tree)
    requires HoldsPath(s, base, p, hole) && Holds(s, hole, t)
    ensures Holds(s, Load(s, base), Plug(p, t))
    decreases p
  {
    if p.Step? {
      PlugHolds(s, base, p.up, To(p.item.id),
                if p.toLeft then Node(t, p.item, p.sibling) else Node(p.sibling, p.item, t));
    }
  }

  lemma {:induction false} PlugIds(p: Path, t: Tree)
    requires ProperPath(p) && Proper(t) && PathIds(p) !! Ids(t)
    ensures Ids(Plug(p, t)) == PathIds(p) + Ids(t) && Proper(Plug(p, t))
    decreases p
  {
    if p.Step? {
      PlugIds(p.up, if p.toLeft then Node(t, p.item, p.sibling) else Node(p.sibling, p.item, t));
    }
  }

  // ---------------------------------------------------------------- framing

  /** The two stores agree on the cells in `ids`. */
  predicate Agree(s: Store, s': Store, ids: set<nat>) {
    |s.cells| == |s'.cells| && forall i :: i in ids && i < |s.cells| ==> s.cells[i] == s'.cells[i]
  }

  lemma {:induction false} HoldsFrame(s: Store, s': Store, l: Link, t: Tree)
    requires Holds(s, l, t) && Agree(s, s', Ids(t))
    ensures Holds(s', l, t)
    decreases t
  {
    if t.Node? {
      HoldsFrame(s, s', s.cells[t.item.id].left, t.left);
      HoldsFrame(s, s', s.cells[t.item.id].right, t.right);
    }
  }

  lemma {:induction false} PathFrame(s: Store, s': Store, base: Ref, p: Path, hole: Link)
    requires HoldsPath(s, base, p, hole) && Agree(s, s', PathIds(p)) && Load(s, base) == Load(s', base)
    ensures HoldsPath(s', base, p, hole)
    decreases p
  {
    if p.Step? {
      HoldsFrame(s, s', Other(s, p), p.sibling);
      PathFrame(s, s', base, p.up, To(p.item.id));
    }
  }

  /** The cell a reference lies in. */
  function CellOf(r: Ref): set<nat> {
    if r.Root? then {} else {r.id}
  }

  lemma {:induction false} RefInside(base: Ref, p: Path)
    ensures CellOf(RefOf(base, p)) <= PathIds(p) + CellOf(base)
  {}

  lemma {:induction false} SaveAgrees(s: Store, r: Ref, v: Link, ids: set<nat>)
    requires CellOf(r) !! ids
    ensures Agree(s, Save(s, r, v), ids)
  {}

  /** Writing into the hole changes the hole and nothing else of the path. */
  lemma {:induction false} SaveHole(s: Store, base: Ref, p: Path, hole: Link, v: Link)
    requires HoldsPath(s, base, p, hole) && ProperPath(p) && CellOf(base) !! PathIds(p)
    requires base.Root? || base.id < |s.cells|
    ensures HoldsPath(Save(s, RefOf(base, p), v), base, p, v)
  {
    var s' := Save(s, RefOf(base, p), v);
    if p.Step? {
      SaveAgrees(s, RefOf(base, p), v, PathIds(p.up));
      SaveAgrees(s, RefOf(base, p), v, Ids(p.sibling));
      HoldsFrame(s, s', Other(s, p), p.sibling);
      PathFrame(s, s', base, p.up, To(p.item.id));
    }
  }
}
