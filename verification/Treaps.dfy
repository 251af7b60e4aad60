/**
 The treap of nre/include/collection/Treap.h: find, insert and remove on linked cells, proved
 against the tree functions of TreapShape.
 */
module Treaps {
  import opened Bits
  import opened TreapShape
  import opened TreapLinks

  const FIRST_PRIO: int := 314159265
  const GOLDEN: int := 0x9e37_79b9        // floor(2^32 / phi)

  function Signed(w: int): int {
    if w % WORD < WORD / 2 then w % WORD else w % WORD - WORD
  }

  function NextPrio(p: int): int {
    Signed(p + GOLDEN)
  }

  /** The priority of the k-th inserted node. */
  function PrioAt(k: nat): int {
    Signed(FIRST_PRIO + k * GOLDEN)
  }

  lemma {:induction false} SameResidue(x: int, q: int)
    ensures (x + q * WORD) % WORD == x % WORD
  {
    var r := x % WORD;
    assert x + q * WORD == (x / WORD + q) * WORD + r;
  }

  lemma {:induction false} SignedAdd(x: int, d: int)
    ensures Signed(Signed(x) + d) == Signed(x + d)
  {
    var q := if x % WORD < WORD / 2 then x / WORD else x / WORD + 1;
    assert x + d == (Signed(x) + d) + q * WORD;
    SameResidue(Signed(x) + d, q);
  }

  lemma {:induction false} NextPrioAt(k: nat)
    ensures NextPrio(PrioAt(k)) == PrioAt(k + 1)
  {
    hide Signed;
    SignedAdd(FIRST_PRIO + k * GOLDEN, GOLDEN);
    assert FIRST_PRIO + k * GOLDEN + GOLDEN == FIRST_PRIO + (k + 1) * GOLDEN;
  }

  /** The step is odd: 0x144cbc89 is its inverse modulo 2^32. */
  lemma {:induction false} SamePrio(j: nat, k: nat)
    requires j <= k && PrioAt(j) == PrioAt(k)
    ensures (k - j) % WORD == 0
  {
    var x, y, d := FIRST_PRIO + j * GOLDEN, FIRST_PRIO + k * GOLDEN, k - j;
    SameSigned(x, y);
    hide Signed;
    var m := y / WORD - x / WORD;
    assert d * GOLDEN == m * WORD;
    assert d == 0 + (m * 0x144c_bc89 - d * 210485888) * WORD;
    SameResidue(0, m * 0x144c_bc89 - d * 210485888);
  }

  /** Fibonacci hashing runs through all 2^32 priorities before it repeats one. */
  lemma {:induction false} PriosDiffer(j: nat, k: nat)
    requires j < k < WORD
    ensures PrioAt(j) != PrioAt(k)
  {
    if PrioAt(j) == PrioAt(k) { SamePrio(j, k); }
  }

  lemma {:induction false} SameSigned(x: int, y: int)
    requires Signed(x) == Signed(y)
    ensures x % WORD == y % WORD
  {}

  // ---------------------------------------------------------------- steps of the split loop

  /** `s` with the tree `rest` hung into the hole of a path, descending into one of its children. */
  lemma {:induction false} GrowSpine(s: Store, base: Ref, p: Path, hole: Link, l: Link, rest: Tree, toLeft: bool)
    requires HoldsPath(s, base, p, hole) && ProperPath(p) && CellOf(base) !! PathIds(p)
    requires base.Root? || base.id < |s.cells|
    requires rest.Node? && Holds(s, l, rest) && Proper(rest) && Ids(rest) !! PathIds(p) + CellOf(base)
    ensures var s' := Save(s, RefOf(base, p), l);
            var p' := Step(p, rest.item, toLeft, if toLeft then rest.right else rest.left);
            var l' := Load(s', RefOf(base, p'));
            && HoldsPath(s', base, p', l') && ProperPath(p')
            && Holds(s', l', if toLeft then rest.left else rest.right)
            && PathIds(p') == PathIds(p) + {rest.item.id} + Ids(p'.sibling)
  {
    var s' := Save(s, RefOf(base, p), l);
    SaveHole(s, base, p, hole, l);
    SaveAgrees(s, RefOf(base, p), l, Ids(rest));
    HoldsFrame(s, s', l, rest);
  }

  /** The state of the split loop: the new node with two spines that end in holes, and the rest. */
  ghost predicate Splitting(s: Store, node: nat, path: Path, lp: Path, rp: Path, l: Link, rest: Tree) {
    && node < |s.cells|
    && HoldsPath(s, Root, path, To(node))
    && HoldsPath(s, LeftOf(node), lp, Load(s, RefOf(LeftOf(node), lp)))
    && HoldsPath(s, RightOf(node), rp, Load(s, RefOf(RightOf(node), rp)))
    && Holds(s, l, rest)
    && Apart(node, path, lp, rp, rest)
  }

  predicate Apart(node: nat, path: Path, lp: Path, rp: Path, rest: Tree) {
    && ProperPath(path) && ProperPath(lp) && ProperPath(rp) && Proper(rest)
    && node !in PathIds(path) && node !in PathIds(lp) && node !in PathIds(rp) && node !in Ids(rest)
    && PathIds(path) !! PathIds(lp) && PathIds(path) !! PathIds(rp) && PathIds(path) !! Ids(rest)
    && PathIds(lp) !! PathIds(rp) && PathIds(lp) !! Ids(rest) && PathIds(rp) !! Ids(rest)
  }

  lemma {:induction false} ApartStep(node: nat, path: Path, lp: Path, rp: Path, rest: Tree)
    requires Apart(node, path, lp, rp, rest) && rest.Node?
    ensures Apart(node, path, lp, Step(rp, rest.item, true, rest.right), rest.left)
    ensures Apart(node, path, Step(lp, rest.item, false, rest.left), rp, rest.right)
  {}

  lemma {:induction false} SplitRight(s: Store, node: nat, path: Path, lp: Path, rp: Path, l: Link, rest: Tree)
    requires Splitting(s, node, path, lp, rp, l, rest) && rest.Node?
    ensures var s' := Save(s, RefOf(RightOf(node), rp), l);
            Splitting(s', node, path, lp, Step(rp, rest.item, true, rest.right), Load(s', LeftOf(rest.item.id)), rest.left)
  {
    hide Holds, HoldsPath, Proper, ProperPath, Ids, PathIds;
    var base := RightOf(node);
    var s', hole := Save(s, RefOf(base, rp), l), Load(s, RefOf(LeftOf(node), lp));
    ApartStep(node, path, lp, rp, rest);
    GrowSpine(s, base, rp, Load(s, RefOf(base, rp)), l, rest, true);
    RefInside(base, rp);
    SaveAgrees(s, RefOf(base, rp), l, PathIds(path));
    SaveAgrees(s, RefOf(base, rp), l, PathIds(lp));
    SaveElsewhere(s, RightOf(node), rp, l, LeftOf(node));
    PathFrame(s, s', Root, path, To(node));
    PathFrame(s, s', LeftOf(node), lp, hole);
    HoleIs(s', LeftOf(node), lp, hole);
  }

  lemma {:induction false} SplitLeft(s: Store, node: nat, path: Path, lp: Path, rp: Path, l: Link, rest: Tree)
    requires Splitting(s, node, path, lp, rp, l, rest) && rest.Node?
    ensures var s' := Save(s, RefOf(LeftOf(node), lp), l);
            Splitting(s', node, path, Step(lp, rest.item, false, rest.left), rp, Load(s', RightOf(rest.item.id)), rest.right)
  {
    hide Holds, HoldsPath, Proper, ProperPath, Ids, PathIds;
    var base := LeftOf(node);
    var s', hole := Save(s, RefOf(base, lp), l), Load(s, RefOf(RightOf(node), rp));
    ApartStep(node, path, lp, rp, rest);
    GrowSpine(s, base, lp, Load(s, RefOf(base, lp)), l, rest, false);
    RefInside(base, lp);
    SaveAgrees(s, RefOf(base, lp), l, PathIds(path));
    SaveAgrees(s, RefOf(base, lp), l, PathIds(rp));
    SaveElsewhere(s, LeftOf(node), lp, l, RightOf(node));
    PathFrame(s, s', Root, path, To(node));
    PathFrame(s, s', RightOf(node), rp, hole);
    HoleIs(s', RightOf(node), rp, hole);
  }

  lemma {:induction false} SaveElsewhere(s: Store, base: Ref, p: Path, v: Link, r: Ref)
    requires base != r && CellOf(r) !! PathIds(p)
    ensures Load(Save(s, RefOf(base, p), v), r) == Load(s, r)
  {}

  lemma {:induction false} HoleIs(s: Store, base: Ref, p: Path, hole: Link)
    requires HoldsPath(s, base, p, hole)
    ensures Load(s, RefOf(base, p)) == hole
  {}

  // ---------------------------------------------------------------- the other steps

  /** Following a link one level down extends the path. */
  lemma {:induction false} Descend(s: Store, path: Path, l: Link, sub: Tree, toLeft: bool)
    requires HoldsPath(s, Root, path, l) && Holds(s, l, sub) && sub.Node?
    requires ProperPath(path) && Proper(sub) && PathIds(path) !! Ids(sub)
    ensures var p' := Step(path, sub.item, toLeft, if toLeft then sub.right else sub.left);
            var l' := Load(s, RefOf(Root, p'));
            var sub' := if toLeft then sub.left else sub.right;
            && HoldsPath(s, Root, p', l') && Holds(s, l', sub')
            && ProperPath(p') && Proper(sub') && PathIds(p') !! Ids(sub')
            && PathIds(p') + Ids(sub') == PathIds(path) + Ids(sub)
  {}

  /** Hooking the new node into the hole found by the descent starts the split loop. */
  lemma {:induction false} PlaceNode(s: Store, x: Item, path: Path, l: Link, sub: Tree)
    requires HoldsPath(s, Root, path, l) && Holds(s, l, sub)
    requires x.id < |s.cells| && s.cells[x.id].key == x.key
    requires ProperPath(path) && Proper(sub) && PathIds(path) !! Ids(sub)
    requires x.id !in PathIds(path) && x.id !in Ids(sub)
    ensures var s' := Placed(s, RefOf(Root, path), x);
            Splitting(s', x.id, path, Top, Top, l, sub) && IsCell(s', x) && SameKeys(s, s')
  {
    hide Holds, Proper, ProperPath, Ids, PathIds;
    var q := RefOf(Root, path);
    var s1 := Save(s, q, To(x.id));
    var s2 := Placed(s, q, x);
    SaveHole(s, Root, path, l, To(x.id));
    RefInside(Root, path);
    SaveAgrees(s, q, To(x.id), Ids(sub));
    assert Agree(s, s2, Ids(sub));
    HoldsFrame(s, s2, l, sub);
    PathFrame(s1, s2, Root, path, To(x.id));
    ApartStart(x.id, path, sub);
  }

  /** `*q = node` and the assignment of the node's priority. */
  function Placed(s: Store, q: Ref, x: Item): Store {
    var s1 := Save(s, q, To(x.id));
    if x.id < |s1.cells| then s1.(cells := s1.cells[x.id := s1.cells[x.id].(prio := x.prio)]) else s1
  }

  lemma {:induction false} ApartStart(node: nat, path: Path, sub: Tree)
    requires ProperPath(path) && Proper(sub) && PathIds(path) !! Ids(sub)
    requires node !in PathIds(path) && node !in Ids(sub)
    ensures Apart(node, path, Top, Top, sub)
  {}

  /** Closing both holes completes the tree. */
  lemma {:induction false} SplitDone(s: Store, x: Item, path: Path, lp: Path, rp: Path)
    requires Splitting(s, x.id, path, lp, rp, Null, Leaf) && IsCell(s, x)
    ensures var s1 := Save(s, RefOf(RightOf(x.id), rp), Null);
            var s2 := Save(s1, RefOf(LeftOf(x.id), lp), Null);
            var t := Plug(path, Node(Plug(lp, Leaf), x, Plug(rp, Leaf)));
            Holds(s2, s2.root, t) && Proper(t) && Ids(t) == PathIds(path) + PathIds(lp) + PathIds(rp) + {x.id}
  {
    hide Proper, ProperPath, Ids, PathIds, HoldsPath;
    var n := x.id;
    var lb, rb := LeftOf(n), RightOf(n);
    var lr, rr := RefOf(lb, lp), RefOf(rb, rp);
    var s1 := Save(s, rr, Null);
    var s2 := Save(s1, lr, Null);
    RefInside(lb, lp);
    RefInside(rb, rp);
    SaveHole(s, rb, rp, Load(s, rr), Null);
    SaveAgrees(s, rr, Null, PathIds(lp));
    SaveElsewhere(s, rb, rp, Null, lb);
    PathFrame(s, s1, lb, lp, Load(s, lr));
    SaveHole(s1, lb, lp, Load(s, lr), Null);
    SaveAgrees(s1, lr, Null, PathIds(rp));
    SaveElsewhere(s1, lb, lp, Null, rb);
    PathFrame(s1, s2, rb, rp, Null);
    SaveAgrees(s, rr, Null, PathIds(path));
    SaveAgrees(s1, lr, Null, PathIds(path));
    PathFrame(s, s2, Root, path, To(n));
    PlugHolds(s2, lb, lp, Null, Leaf);
    PlugHolds(s2, rb, rp, Null, Leaf);
    SaveKeepsItem(s, rr, Null, x);
    SaveKeepsItem(s1, lr, Null, x);
    var t := Node(Plug(lp, Leaf), x, Plug(rp, Leaf));
    assert Holds(s2, To(n), t);
    PlugHolds(s2, Root, path, To(n), t);
    DoneIds(x, path, lp, rp);
  }

  lemma {:induction false} SaveKeepsItem(s: Store, r: Ref, v: Link, x: Item)
    requires IsCell(s, x)
    ensures IsCell(Save(s, r, v), x)
  {}

  lemma {:induction false} DoneIds(x: Item, path: Path, lp: Path, rp: Path)
    requires Apart(x.id, path, lp, rp, Leaf)
    ensures var t := Plug(path, Node(Plug(lp, Leaf), x, Plug(rp, Leaf)));
            Proper(t) && Ids(t) == PathIds(path) + PathIds(lp) + PathIds(rp) + {x.id}
  {
    assert Ids(Leaf) == {} && Proper(Leaf);
    hide Ids, PathIds, Proper, ProperPath, Plug;
    PlugIds(lp, Leaf);
    PlugIds(rp, Leaf);
    NodeIds(Plug(lp, Leaf), x, Plug(rp, Leaf));
    PlugIds(path, Node(Plug(lp, Leaf), x, Plug(rp, Leaf)));
  }

  lemma {:induction false} NodeIds(l: Tree, x: Item, r: Tree)
    requires Proper(l) && Proper(r) && Ids(l) !! Ids(r) && x.id !in Ids(l) && x.id !in Ids(r)
    ensures Proper(Node(l, x, r)) && Ids(Node(l, x, r)) == Ids(l) + {x.id} + Ids(r)
  {}

  predicate SameKeys(s: Store, s': Store) {
    |s.cells| == |s'.cells| && forall i :: 0 <= i < |s.cells| ==> s'.cells[i].key == s.cells[i].key
  }

  lemma {:induction false} SaveKeepsKeys(s0: Store, s: Store, r: Ref, v: Link)
    requires SameKeys(s0, s)
    ensures SameKeys(s0, Save(s, r, v))
  {}

  lemma {:induction false} ItemsIds(t: Tree)
    ensures Ids(t) == set x | x in Items(t) :: x.id
  {
    if t.Node? {
      ItemsIds(t.left);
      ItemsIds(t.right);
    }
  }

  lemma {:induction false} HoldsInRange(s: Store, l: Link, t: Tree)
    requires Holds(s, l, t)
    ensures forall i :: i in Ids(t) ==> i < |s.cells|
    decreases t
  {
    if t.Node? {
      HoldsInRange(s, s.cells[t.item.id].left, t.left);
      HoldsInRange(s, s.cells[t.item.id].right, t.right);
    }
  }

  lemma {:induction false} Children(s: Store, l: Link, t: Tree)
    requires Holds(s, l, t)
    ensures t.Node? <==> l.To?
    ensures t.Node? ==> l == To(t.item.id) && IsCell(s, t.item)
                        && Holds(s, s.cells[t.item.id].left, t.left) && Holds(s, s.cells[t.item.id].right, t.right)
  {}

  /** The rotation of remove_from that brings the left child up. */
  function RotateLeftUp(s: Store, q: Ref, n: nat): Store
    requires n < |s.cells| && s.cells[n].left.To?
  {
    var t := s.cells[n].left.id;
    Save(Save(Save(s, LeftOf(n), Load(s, RightOf(t))), RightOf(t), To(n)), q, To(t))
  }

  function RotateRightUp(s: Store, q: Ref, n: nat): Store
    requires n < |s.cells| && s.cells[n].right.To?
  {
    var t := s.cells[n].right.id;
    Save(Save(Save(s, RightOf(n), Load(s, LeftOf(t))), LeftOf(t), To(n)), q, To(t))
  }

  /** The node to be removed, at the end of a path, with its two subtrees. */
  ghost predicate Sinking(s: Store, path: Path, sub: Tree) {
    && sub.Node? && Holds(s, To(sub.item.id), sub) && HoldsPath(s, Root, path, To(sub.item.id))
    && ProperPath(path) && Proper(sub) && PathIds(path) !! Ids(sub)
  }

  lemma {:induction false} SaveThreeAgrees(s: Store, r1: Ref, v1: Link, r2: Ref, v2: Link, r3: Ref, v3: Link, ids: set<nat>)
    requires CellOf(r1) !! ids && CellOf(r2) !! ids && CellOf(r3) !! ids
    ensures Agree(s, Save(Save(Save(s, r1, v1), r2, v2), r3, v3), ids)
  {}

  lemma {:induction false} SinkApart(path: Path, sub: Tree)
    requires ProperPath(path) && sub.Node? && Proper(sub) && PathIds(path) !! Ids(sub)
    ensures sub.left.Node? ==>
              var l := sub.left; var p := Step(path, l.item, false, l.left); var t := Node(l.right, sub.item, sub.right);
              ProperPath(p) && Proper(t) && PathIds(p) !! Ids(t)
    ensures sub.right.Node? ==>
              var r := sub.right; var p := Step(path, r.item, true, r.right); var t := Node(sub.left, sub.item, r.left);
              ProperPath(p) && Proper(t) && PathIds(p) !! Ids(t)
  {}

  /** The two cells of a rotation, and the trees below them, are apart. */
  lemma {:induction false} SinkIds(path: Path, sub: Tree)
    requires sub.Node? && Proper(sub) && PathIds(path) !! Ids(sub)
    ensures sub.item.id !in PathIds(path) && PathIds(path) !! Ids(sub.left) && PathIds(path) !! Ids(sub.right)
    ensures sub.item.id !in Ids(sub.left) && sub.item.id !in Ids(sub.right)
    ensures sub.left.Node? ==>
              var l, t := sub.left, sub.left.item.id;
              && t != sub.item.id && t !in PathIds(path) && t !in Ids(l.left) && t !in Ids(l.right) && t !in Ids(sub.right)
              && sub.item.id !in Ids(l.left) && sub.item.id !in Ids(l.right)
              && PathIds(path) !! Ids(l.left) && PathIds(path) !! Ids(l.right)
    ensures sub.right.Node? ==>
              var r, t := sub.right, sub.right.item.id;
              && t != sub.item.id && t !in PathIds(path) && t !in Ids(r.left) && t !in Ids(r.right) && t !in Ids(sub.left)
              && sub.item.id !in Ids(r.left) && sub.item.id !in Ids(r.right)
              && PathIds(path) !! Ids(r.left) && PathIds(path) !! Ids(r.right)
  {}

  /** After the three assignments of a rotation the path leads to the child. */
  lemma {:induction false} PathRotated(s: Store, path: Path, n: nat, t: nat, r1: Ref, v1: Link, r2: Ref)
    requires HoldsPath(s, Root, path, To(n)) && ProperPath(path) && CellOf(r1) == {n} && CellOf(r2) == {t}
    requires n !in PathIds(path) && t !in PathIds(path)
    ensures HoldsPath(Save(Save(Save(s, r1, v1), r2, To(n)), RefOf(Root, path), To(t)), Root, path, To(t))
  {
    hide PathIds, ProperPath, HoldsPath;
    var s1 := Save(s, r1, v1);
    var s2 := Save(s1, r2, To(n));
    SaveAgrees(s, r1, v1, PathIds(path));
    SaveAgrees(s1, r2, To(n), PathIds(path));
    PathFrame(s, s1, Root, path, To(n));
    PathFrame(s1, s2, Root, path, To(n));
    SaveHole(s2, Root, path, To(n), To(t));
  }

  /** Trees that contain neither cell of a rotation nor one of the path are left alone. */
  lemma {:induction false} TreeRotated(s: Store, path: Path, n: nat, t: nat, r1: Ref, v1: Link, r2: Ref, l: Link, u: Tree)
    requires Holds(s, l, u) && CellOf(r1) == {n} && CellOf(r2) == {t}
    requires n !in Ids(u) && t !in Ids(u) && PathIds(path) !! Ids(u)
    ensures Holds(Save(Save(Save(s, r1, v1), r2, To(n)), RefOf(Root, path), To(t)), l, u)
  {
    RefInside(Root, path);
    hide Ids, PathIds, Holds, RefOf;
    var q, s2 := RefOf(Root, path), Save(Save(Save(s, r1, v1), r2, To(n)), RefOf(Root, path), To(t));
    SaveThreeAgrees(s, r1, v1, r2, To(n), q, To(t), Ids(u));
    HoldsFrame(s, s2, l, u);
  }

  /** The hole of a path is not a link of a cell outside of it. */
  lemma {:induction false} HoleElsewhere(path: Path, n: nat)
    requires n !in PathIds(path)
    ensures RefOf(Root, path) != LeftOf(n) && RefOf(Root, path) != RightOf(n)
  {
    RefInside(Root, path);
  }

  lemma {:induction false} SinkRight(s: Store, path: Path, sub: Tree)
    requires Sinking(s, path, sub) && sub.left.Node?
    ensures IsCell(s, sub.item) && s.cells[sub.item.id].left == To(sub.left.item.id)
    ensures var l := sub.left;
            Sinking(RotateLeftUp(s, RefOf(Root, path), sub.item.id),
                    Step(path, l.item, false, l.left), Node(l.right, sub.item, sub.right))
  {
    hide Ids, PathIds, Proper, ProperPath, Holds, HoldsPath, RefOf;
    var l, n, q := sub.left, sub.item.id, RefOf(Root, path);
    Children(s, To(n), sub);
    Children(s, s.cells[n].left, l);
    var t := l.item.id;
    var lr := s.cells[t].right;
    SinkIds(path, sub);
    HoleElsewhere(path, n);
    HoleElsewhere(path, t);
    PathRotated(s, path, n, t, LeftOf(n), lr, RightOf(t));
    TreeRotated(s, path, n, t, LeftOf(n), lr, RightOf(t), s.cells[t].left, l.left);
    TreeRotated(s, path, n, t, LeftOf(n), lr, RightOf(t), lr, l.right);
    TreeRotated(s, path, n, t, LeftOf(n), lr, RightOf(t), s.cells[n].right, sub.right);
    SinkApart(path, sub);
    SinkAssemble(RotateLeftUp(s, q, n), path, l.item, false, l.left, Node(l.right, sub.item, sub.right));
  }

  /** The rotated pieces put together. */
  lemma {:induction false} SinkAssemble(s: Store, path: Path, x: Item, toLeft: bool, sibling: Tree, sub: Tree)
    requires sub.Node? && IsCell(s, x) && IsCell(s, sub.item)
    requires HoldsPath(s, Root, path, To(x.id))
    requires Load(s, if toLeft then LeftOf(x.id) else RightOf(x.id)) == To(sub.item.id)
    requires Holds(s, Load(s, if toLeft then RightOf(x.id) else LeftOf(x.id)), sibling)
    requires Holds(s, s.cells[sub.item.id].left, sub.left) && Holds(s, s.cells[sub.item.id].right, sub.right)
    requires var p := Step(path, x, toLeft, sibling); ProperPath(p) && Proper(sub) && PathIds(p) !! Ids(sub)
    ensures Sinking(s, Step(path, x, toLeft, sibling), sub)
  {}

  lemma {:induction false} SinkLeft(s: Store, path: Path, sub: Tree)
    requires Sinking(s, path, sub) && sub.right.Node?
    ensures IsCell(s, sub.item) && s.cells[sub.item.id].right == To(sub.right.item.id)
    ensures var r := sub.right;
            Sinking(RotateRightUp(s, RefOf(Root, path), sub.item.id),
                    Step(path, r.item, true, r.right), Node(sub.left, sub.item, r.left))
  {
    hide Ids, PathIds, Proper, ProperPath, Holds, HoldsPath, RefOf;
    var r, n, q := sub.right, sub.item.id, RefOf(Root, path);
    Children(s, To(n), sub);
    Children(s, s.cells[n].right, r);
    var t := r.item.id;
    var rl := s.cells[t].left;
    SinkIds(path, sub);
    HoleElsewhere(path, n);
    HoleElsewhere(path, t);
    PathRotated(s, path, n, t, RightOf(n), rl, LeftOf(t));
    TreeRotated(s, path, n, t, RightOf(n), rl, LeftOf(t), s.cells[t].right, r.right);
    TreeRotated(s, path, n, t, RightOf(n), rl, LeftOf(t), rl, r.left);
    TreeRotated(s, path, n, t, RightOf(n), rl, LeftOf(t), s.cells[n].left, sub.left);
    SinkApart(path, sub);
    SinkAssemble(RotateRightUp(s, q, n), path, r.item, true, r.right, Node(sub.left, sub.item, r.left));
  }

  /** A node with at most one child is replaced by that child. */
  lemma {:induction false} Unhook(s: Store, path: Path, sub: Tree)
    requires Sinking(s, path, sub) && (sub.left.Leaf? || sub.right.Leaf?)
    ensures IsCell(s, sub.item)
    ensures var c := s.cells[sub.item.id];
            var s' := Save(s, RefOf(Root, path), if c.left.To? then c.left else c.right);
            Holds(s', s'.root, Plug(path, Join(sub.left, sub.right)))
  {
    Children(s, To(sub.item.id), sub);
    var c := s.cells[sub.item.id];
    Children(s, c.left, sub.left);
    Children(s, c.right, sub.right);
    var v, rest := if c.left.To? then c.left else c.right, Join(sub.left, sub.right);
    var s' := Save(s, RefOf(Root, path), v);
    assert Holds(s, v, rest) && Ids(rest) <= Ids(sub);
    RefInside(Root, path);
    SaveAgrees(s, RefOf(Root, path), v, Ids(rest));
    HoldsFrame(s, s', v, rest);
    SaveHole(s, Root, path, To(sub.item.id), v);
    PlugHolds(s', Root, path, v, rest);
  }

  lemma {:induction false} SpineIds(lp: Path, rp: Path, rest: Tree)
    requires rest.Node?
    ensures PathIds(lp) + PathIds(Step(rp, rest.item, true, rest.right)) + Ids(rest.left)
            == PathIds(lp) + PathIds(rp) + Ids(rest)
    ensures PathIds(Step(lp, rest.item, false, rest.left)) + PathIds(rp) + Ids(rest.right)
            == PathIds(lp) + PathIds(rp) + Ids(rest)
  {}

  lemma {:induction false} PlugInsert(path: Path, sub: Tree, x: Item)
    requires sub.Node? && sub.item.prio < x.prio
    ensures Plug(path, Insert(sub, x))
            == if x.key < sub.item.key
               then Plug(Step(path, sub.item, true, sub.right), Insert(sub.left, x))
               else Plug(Step(path, sub.item, false, sub.left), Insert(sub.right, x))
  {}

  ghost predicate PriosBefore(t: Tree, k: nat) {
    forall x :: x in Items(t) ==> exists j :: 0 <= j < k && x.prio == PrioAt(j)
  }

  /** The cells hold a treap whose priorities are among the first `k` ones, and `prio` is next. */
  ghost predicate Good(s: Store, prio: int, t: Tree, k: nat) {
    && Holds(s, s.root, t) && Proper(t) && IsTreap(t) && DistinctPrios(t)
    && prio == PrioAt(k) && PriosBefore(t, k)
  }

  lemma {:induction false} GoodInsert(s: Store, s': Store, prio: int, t: Tree, x: Item, k: nat)
    requires Good(s, prio, t, k) && x.prio == prio && k < WORD && x.id !in Ids(t)
    requires forall y :: y in Items(t) ==> y.key != x.key
    requires Holds(s', s'.root, Insert(t, x)) && Proper(Insert(t, x))
    ensures Good(s', NextPrio(prio), Insert(t, x), k + 1)
    ensures Items(Insert(t, x)) == Items(t) + {x}
  {
    hide Holds, Proper, IsTreap, DistinctPrios, PriosBefore, Insert, Items, PrioAt, NextPrio;
    NextPrioAt(k);
    InsertKeeps(t, x, k);
  }

  lemma {:induction false} SameKeysTrans(s0: Store, s1: Store, s2: Store)
    requires SameKeys(s0, s1) && SameKeys(s1, s2)
    ensures SameKeys(s0, s2)
  {}

  /** A new priority keeps all priorities distinct, and insertion keeps the treap. */
  lemma {:induction false} InsertKeeps(t: Tree, x: Item, k: nat)
    requires IsTreap(t) && DistinctPrios(t) && PriosBefore(t, k)
    requires x.prio == PrioAt(k) && k < WORD && x.id !in Ids(t) && forall y :: y in Items(t) ==> y.key != x.key
    ensures IsTreap(Insert(t, x)) && DistinctPrios(Insert(t, x)) && PriosBefore(Insert(t, x), k + 1)
    ensures Items(Insert(t, x)) == Items(t) + {x}
  {
    hide PrioAt, IsTreap, Insert, Items, Ids;
    ItemsIds(t);
    forall y | y in Items(t) ensures y.prio != x.prio && y.id != x.id {
      var j :| 0 <= j < k && y.prio == PrioAt(j);
      PriosDiffer(j, k);
    }
    InsertItems(t, x);
  }

  lemma {:induction false} HoldsItems(s: Store, l: Link, t: Tree)
    requires Holds(s, l, t)
    ensures forall y :: y in Items(t) ==> IsCell(s, y)
    decreases t
  {
    if t.Node? {
      HoldsItems(s, s.cells[t.item.id].left, t.left);
      HoldsItems(s, s.cells[t.item.id].right, t.right);
    }
  }

  lemma {:induction false} RotateKeepsKeys(s: Store, q: Ref, n: nat)
    requires n < |s.cells|
    ensures s.cells[n].left.To? ==> SameKeys(s, RotateLeftUp(s, q, n))
    ensures s.cells[n].right.To? ==> SameKeys(s, RotateRightUp(s, q, n))
  {
    assert SameKeys(s, s);
    hide SameKeys, Save;
    var c := s.cells[n];
    if c.left.To? { SaveThreeKeepsKeys(s, LeftOf(n), Load(s, RightOf(c.left.id)), RightOf(c.left.id), To(n), q, c.left); }
    if c.right.To? { SaveThreeKeepsKeys(s, RightOf(n), Load(s, LeftOf(c.right.id)), LeftOf(c.right.id), To(n), q, c.right); }
  }

  lemma {:induction false} SaveThreeKeepsKeys(s: Store, r1: Ref, v1: Link, r2: Ref, v2: Link, r3: Ref, v3: Link)
    ensures SameKeys(s, Save(Save(Save(s, r1, v1), r2, v2), r3, v3))
  {
    assert SameKeys(s, s);
    hide SameKeys, Save;
    SaveKeepsKeys(s, s, r1, v1);
    SaveKeepsKeys(s, Save(s, r1, v1), r2, v2);
    SaveKeepsKeys(s, Save(Save(s, r1, v1), r2, v2), r3, v3);
  }

  lemma {:induction false} PlugRemove(path: Path, sub: Tree, x: Item)
    requires sub.Node? && sub.item != x
    ensures Plug(path, Remove(sub, x))
            == if x.key < sub.item.key
               then Plug(Step(path, sub.item, true, sub.right), Remove(sub.left, x))
               else Plug(Step(path, sub.item, false, sub.left), Remove(sub.right, x))
  {}

  lemma {:induction false} PlugJoin(path: Path, l: Tree, r: Tree)
    requires l.Node? && r.Node?
    ensures Plug(path, Join(l, r))
            == if l.item.prio < r.item.prio
               then Plug(Step(path, l.item, false, l.left), Join(l.right, r))
               else Plug(Step(path, r.item, true, r.right), Join(l, r.left))
  {}

  lemma {:induction false} JoinIds(l: Tree, r: Tree)
    requires Proper(l) && Proper(r) && Ids(l) !! Ids(r)
    ensures Proper(Join(l, r)) && Ids(Join(l, r)) == Ids(l) + Ids(r)
    decreases l, r
  {
    if l.Node? && r.Node? {
      if l.item.prio < r.item.prio { JoinIds(l.right, r); } else { JoinIds(l, r.left); }
    }
  }

  lemma {:induction false} RemovedIds(path: Path, sub: Tree)
    requires sub.Node? && ProperPath(path) && Proper(sub) && PathIds(path) !! Ids(sub)
    ensures var t := Plug(path, Join(sub.left, sub.right));
            Proper(t) && Ids(t) == PathIds(path) + Ids(sub) - {sub.item.id}
  {
    JoinIds(sub.left, sub.right);
    var j := Join(sub.left, sub.right);
    assert Ids(sub) == Ids(sub.left) + {sub.item.id} + Ids(sub.right);
    hide Join, Plug;
    PlugIds(path, j);
  }

  lemma {:induction false} GoodRemove(s: Store, s': Store, prio: int, t: Tree, x: Item, k: nat)
    requires Good(s, prio, t, k) && x in Items(t)
    requires Holds(s', s'.root, Remove(t, x)) && Proper(Remove(t, x))
    ensures Good(s', prio, Remove(t, x), k)
    ensures Items(Remove(t, x)) == Items(t) - {x}
  {
    hide Holds, Proper, IsTreap, Remove, Items, PrioAt;
    RemoveItems(t, x);
  }

  // ---------------------------------------------------------------- the class

  class Treap {
    var store: Store
    var prio: int
    ghost var tree: Tree
    ghost var inserts: nat

    ghost predicate Valid()
      reads this
    {
      Good(store, prio, tree, inserts)
    }

    constructor (slots: nat)
      ensures Valid() && tree == Leaf && inserts == 0
      ensures |store.cells| == slots
    {
      store := Store(seq(slots, _ => Cell(0, 0, Null, Null)), Null);
      prio := FIRST_PRIO;
      tree := Leaf;
      inserts := 0;
    }

    /** Treap::find */
    method Find(key: nat) returns (node: Link)
      requires Valid()
      ensures node.Null? ==> forall x :: x in Items(tree) ==> x.key != key
      ensures node.To? ==> exists x :: x in Items(tree) && x.key == key && x.id == node.id
    {
      node := store.root;
      ghost var sub := tree;
      FindIsScan(tree, key);
      while node.To?
        invariant Holds(store, node, sub) && TreapShape.Find(sub, key) == TreapShape.Find(tree, key)
        decreases sub
      {
        var cell := store.cells[node.id];
        if cell.key == key {
          assert sub.item in TreapShape.Find(tree, key);
          return;
        }
        if key < cell.key {
          node, sub := cell.left, sub.left;
        } else {
          node, sub := cell.right, sub.right;
        }
      }
    }

    /** Sets the key of a node that is not in the tree. */
    method SetKey(node: nat, key: nat)
      requires Valid() && node < |store.cells| && node !in Ids(tree)
      modifies this
      ensures Valid() && tree == old(tree) && inserts == old(inserts)
      ensures |store.cells| == old(|store.cells|) && store.cells[node].key == key
      ensures forall i :: 0 <= i < |store.cells| && i != node ==> store.cells[i].key == old(store.cells[i].key)
    {
      ghost var before := store;
      store := store.(cells := store.cells[node := store.cells[node].(key := key)]);
      HoldsFrame(before, store, store.root, tree);
    }

    /** The first loop of Treap::insert: down to the first node that has no smaller priority. */
    method DescendByPrio(x: Item) returns (q: Ref, p: Link, ghost path: Path, ghost sub: Tree)
      requires Valid()
      ensures q == RefOf(Root, path) && HoldsPath(store, Root, path, p) && Holds(store, p, sub)
      ensures ProperPath(path) && Proper(sub) && PathIds(path) !! Ids(sub)
      ensures PathIds(path) + Ids(sub) == Ids(tree)
      ensures Plug(path, Node(Split(sub, x.key).0, x, Split(sub, x.key).1)) == TreapShape.Insert(tree, x)
    {
      path, sub := Top, tree;
      q, p := Root, store.root;
      while p.To? && store.cells[p.id].prio < x.prio
        invariant q == RefOf(Root, path) && HoldsPath(store, Root, path, p) && Holds(store, p, sub)
        invariant ProperPath(path) && Proper(sub) && PathIds(path) !! Ids(sub)
        invariant PathIds(path) + Ids(sub) == Ids(tree)
        invariant Plug(path, TreapShape.Insert(sub, x)) == TreapShape.Insert(tree, x)
        decreases sub
      {
        Children(store, p, sub);
        Descend(store, path, p, sub, x.key < store.cells[p.id].key);
        PlugInsert(path, sub, x);
        hide Holds, HoldsPath, Ids, PathIds, Proper, ProperPath, TreapShape.Insert, Plug;
        if x.key < store.cells[p.id].key {
          q := LeftOf(p.id);
          path, sub := Step(path, sub.item, true, sub.right), sub.left;
        } else {
          q := RightOf(p.id);
          path, sub := Step(path, sub.item, false, sub.left), sub.right;
        }
        p := Load(store, q);
      }
      Children(store, p, sub);
    }

    /** The second loop of Treap::insert: splits the tree at `first` into the new node's subtrees. */
    method SplitBelow(node: nat, first: Link, ghost x: Item, ghost path: Path, ghost sub: Tree)
      requires x.id == node && IsCell(store, x) && Splitting(store, node, path, Top, Top, first, sub)
      modifies this`store
      ensures var t := Plug(path, Node(Split(sub, x.key).0, x, Split(sub, x.key).1));
              Holds(store, store.root, t) && Proper(t) && Ids(t) == PathIds(path) + Ids(sub) + {node}
      ensures SameKeys(old(store), store)
    {
      var p := first;
      var l, r := LeftOf(node), RightOf(node);
      ghost var lp, rp, rest := Top, Top, sub;
      var key := store.cells[node].key;
      while p.To?
        invariant Splitting(store, node, path, lp, rp, p, rest)
        invariant l == RefOf(LeftOf(node), lp) && r == RefOf(RightOf(node), rp)
        invariant IsCell(store, x) && SameKeys(old(store), store)
        invariant Split(sub, key) == (Plug(lp, Split(rest, key).0), Plug(rp, Split(rest, key).1))
        invariant PathIds(lp) + PathIds(rp) + Ids(rest) == Ids(sub)
        decreases rest
      {
        SpineIds(lp, rp, rest);
        Children(store, p, rest);
        assert store.cells[p.id].key == rest.item.key;
        hide Ids, PathIds, Holds, HoldsPath, Apart, SameKeys, Save;
        if key < store.cells[p.id].key {
          SplitRight(store, node, path, lp, rp, p, rest);
          SaveKeepsItem(store, r, p, x);
          SaveKeepsKeys(old(store), store, r, p);
          store := Save(store, r, p);
          r := LeftOf(p.id);
          p := Load(store, r);
          rp, rest := Step(rp, rest.item, true, rest.right), rest.left;
        } else {
          SplitLeft(store, node, path, lp, rp, p, rest);
          SaveKeepsItem(store, l, p, x);
          SaveKeepsKeys(old(store), store, l, p);
          store := Save(store, l, p);
          l := RightOf(p.id);
          p := Load(store, l);
          lp, rest := Step(lp, rest.item, false, rest.left), rest.right;
        }
      }
      Children(store, p, rest);
      SplitDone(store, x, path, lp, rp);
      SaveKeepsKeys(old(store), store, r, Null);
      SaveKeepsKeys(old(store), Save(store, r, Null), l, Null);
      hide *;
      store := Save(Save(store, r, Null), l, Null);
    }

    /** Treap::insert: `node` gets the next priority. */
    method Insert(node: nat)
      requires Valid() && node < |store.cells| && node !in Ids(tree) && inserts < WORD
      requires forall x :: x in Items(tree) ==> x.key != store.cells[node].key
      modifies this
      ensures Valid() && inserts == old(inserts) + 1
      ensures tree == TreapShape.Insert(old(tree), Item(node, old(store.cells[node].key), PrioAt(old(inserts))))
      ensures Items(tree) == old(Items(tree)) + {Item(node, old(store.cells[node].key), PrioAt(old(inserts)))}
      ensures Ids(tree) == old(Ids(tree)) + {node}
      ensures SameKeys(old(store), store)
    {
      var x := Item(node, store.cells[node].key, prio);
      hide Holds, HoldsPath, Ids, PathIds, Proper, ProperPath, Items, TreapShape.Insert, Plug, Split,
        Placed, SameKeys, Save, IsTreap, DistinctPrios, PriosBefore, PrioAt;
      var q, p, path, sub := DescendByPrio(x);
      PlaceNode(store, x, path, p, sub);
      store := Placed(store, q, x);
      ghost var placed := store;
      SplitBelow(node, p, x, path, sub);
      SameKeysTrans(old(store), placed, store);
      GoodInsert(old(store), store, prio, tree, x, inserts);
      prio := NextPrio(prio);
      inserts := inserts + 1;
      tree := TreapShape.Insert(tree, x);
    }

    /** Treap::remove_from: rotates the node down until it has at most one child, then unhooks it. */
    method RemoveFrom(q: Ref, node: nat, ghost path: Path, ghost sub: Tree)
      requires Sinking(store, path, sub) && sub.item.id == node && q == RefOf(Root, path)
      modifies this`store
      ensures Holds(store, store.root, Plug(path, Join(sub.left, sub.right)))
      ensures SameKeys(old(store), store)
      decreases sub.left, sub.right
    {
      Children(store, To(node), sub);
      var c := store.cells[node];
      Children(store, c.left, sub.left);
      Children(store, c.right, sub.right);
      RotateKeepsKeys(store, q, node);
      SaveKeepsKeys(store, store, q, if c.left.To? then c.left else c.right);
      hide Holds, HoldsPath, Ids, PathIds, Proper, ProperPath, Plug, Join, Sinking, SameKeys, Save,
        RotateLeftUp, RotateRightUp;
      if c.left.To? && c.right.To? {
        PlugJoin(path, sub.left, sub.right);
        if store.cells[c.left.id].prio < store.cells[c.right.id].prio {
          var t := c.left.id;
          SinkRight(store, path, sub);
          store := RotateLeftUp(store, q, node);
          ghost var rotated := store;
          RemoveFrom(RightOf(t), node, Step(path, sub.left.item, false, sub.left.left),
                     Node(sub.left.right, sub.item, sub.right));
          SameKeysTrans(old(store), rotated, store);
        } else {
          var t := c.right.id;
          SinkLeft(store, path, sub);
          store := RotateRightUp(store, q, node);
          ghost var rotated := store;
          RemoveFrom(LeftOf(t), node, Step(path, sub.right.item, true, sub.right.right),
                     Node(sub.left, sub.item, sub.right.left));
          SameKeysTrans(old(store), rotated, store);
        }
      } else {
        Unhook(store, path, sub);
        store := Save(store, q, if c.left.To? then c.left else c.right);
      }
    }

    /** Treap::remove */
    method Remove(node: nat) returns (ghost x: Item)
      requires Valid() && node in Ids(tree)
      modifies this
      ensures Valid() && inserts == old(inserts)
      ensures x in old(Items(tree)) && x.id == node
      ensures tree == TreapShape.Remove(old(tree), x) && Items(tree) == old(Items(tree)) - {x}
      ensures Ids(tree) == old(Ids(tree)) - {node}
      ensures SameKeys(old(store), store)
    {
      var q: Ref;
      ghost var path: Path, sub: Tree;
      q, x, path, sub := Locate(node);
      hide Holds, HoldsPath, Ids, PathIds, Proper, ProperPath, Items, TreapShape.Remove, Plug, Join,
        SameKeys, IsTreap, DistinctPrios, PriosBefore, PrioAt;
      RemovedIds(path, sub);
      RemoveFrom(q, node, path, sub);
      GoodRemove(old(store), store, prio, tree, x, inserts);
      tree := TreapShape.Remove(tree, x);
    }

    /** The loop of Treap::remove: finds where the pointer to the node is stored. */
    method Locate(node: nat) returns (q: Ref, ghost x: Item, ghost path: Path, ghost sub: Tree)
      requires Valid() && node in Ids(tree)
      ensures x in Items(tree) && x.id == node && sub.Node? && sub.item == x
      ensures q == RefOf(Root, path) && Sinking(store, path, sub)
      ensures PathIds(path) + Ids(sub) == Ids(tree)
      ensures Plug(path, Join(sub.left, sub.right)) == TreapShape.Remove(tree, x)
    {
      ItemsIds(tree);
      x :| x in Items(tree) && x.id == node;
      HoldsItems(store, store.root, tree);
      path, sub, q := Top, tree, Root;
      while Load(store, q).To? && Load(store, q).id != node
        invariant q == RefOf(Root, path) && HoldsPath(store, Root, path, Load(store, q)) && Holds(store, Load(store, q), sub)
        invariant ProperPath(path) && Proper(sub) && PathIds(path) !! Ids(sub)
        invariant PathIds(path) + Ids(sub) == Ids(tree)
        invariant x in Items(sub) && Ordered(sub)
        invariant Plug(path, TreapShape.Remove(sub, x)) == TreapShape.Remove(tree, x)
        decreases sub
      {
        var p := Load(store, q);
        Children(store, p, sub);
        Descend(store, path, p, sub, store.cells[node].key < store.cells[p.id].key);
        PlugRemove(path, sub, x);
        hide Holds, HoldsPath, Ids, PathIds, Proper, ProperPath, TreapShape.Remove, Plug;
        if store.cells[node].key < store.cells[p.id].key {
          q := LeftOf(p.id);
          path, sub := Step(path, sub.item, true, sub.right), sub.left;
        } else {
          q := RightOf(p.id);
          path, sub := Step(path, sub.item, false, sub.left), sub.right;
        }
      }
      Children(store, Load(store, q), sub);
    }
  }
}
