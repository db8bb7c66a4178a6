/**
 * The plain search tree's arena. There is no sentinel: index NIL stands for
 * Java's `null`, its slot is a placeholder that no statement writes, and a
 * `null` child or parent link is NIL.
 *
 * transplant(u, v) is given twice. `Hang` is the evidently intended one,
 * which sets v's parent link whether or not u was the root; the removal
 * lemmas below use it. `TransplantAsWritten` is BinaryTree.java:113-126,
 * which returns right after `root = v`, so a root taken over by v keeps a
 * parent link to the removed node (StaleRootExample). The two-child branch
 * of removeNode as written also points the removed node's left child back
 * at the removed node (ParentLinkExample).
 *
 * The removal lemmas reuse those of module Splice, written for a sentinel
 * that transplant does write: the arena with the sentinel's writes (`g`)
 * and the one without them (`b`) agree at every other slot (`Mirrors`),
 * and the stored tree never uses slot NIL.
 */
module BstArena {
  import opened Shapes
  import opened ShapeFacts
  import opened Splice
  import opened Bst

  /** Two arenas of the same length that agree everywhere except perhaps at slot NIL. */
  ghost predicate Mirrors<A, V>(b: seq<Slot<A, V>>, g: seq<Slot<A, V>>)
  {
    |b| == |g| && forall i :: 0 < i < |g| ==> b[i] == g[i]
  }

  /** The stored tree never uses slot NIL, so it does not see what slot NIL holds. */
  lemma Unnull<A, V>(g: seq<Slot<A, V>>, b: seq<Slot<A, V>>, root: nat, t: Tree<A, V>)
    requires Stored(g, root, t) && Mirrors(b, g) && b[NIL].left == NIL
    ensures Stored(b, root, t)
  {
    WfNonNil(t);
    ReprBounds(g, t, NIL);
    ReprFrame(g, b, t, NIL);
  }

  /**
   * transplant(u, v) as evidently intended: u's parent, if u has one, links
   * `v` where it linked `u`, and v, unless `null`, takes u's parent link.
   * Slot NIL is never written. (The root field is the caller's business.)
   */
  function Hang<V>(nodes: seq<Slot<(), V>>, u: nat, v: nat): (r: seq<Slot<(), V>>)
    requires u < |nodes| && v < |nodes| && nodes[u].parent < |nodes|
    ensures |r| == |nodes| && r[NIL] == nodes[NIL]
  {
    var p := nodes[u].parent;
    var n1 := if p == NIL then nodes else nodes[p := Repoint(nodes[p], u, v)];
    if v == NIL then n1 else n1[v := n1[v].(parent := p)]
  }

  /** Hang and Splice.Transplant write the same slots other than slot NIL. */
  lemma HangMirrors<V>(b: seq<Slot<(), V>>, g: seq<Slot<(), V>>, u: nat, v: nat)
    requires Mirrors(b, g) && 0 < u < |b| && v < |b| && b[u].parent < |b|
    ensures g[u].parent < |g| && Mirrors(Hang(b, u, v), Transplant(g, u, v))
  {
  }

  /**
   * Removing a node with an empty child by the intended transplant(z, c),
   * `c` being its other child: the arena stores the tree with `c` in z's
   * place, which is ordered and holds every entry but z's.
   */
  lemma {:induction false} CutOneStep<V>(n0: seq<Slot<(), V>>, root0: nat, path: seq<Frame<(), V>>, s: Bin<V>, c: Bin<V>)
    requires Stored(n0, root0, Plug(path, s)) && SearchTree(Plug(path, s)) && s.Node?
    requires (s.left.Leaf? && c == s.right) || (s.right.Leaf? && c == s.left)
    ensures s.id < |n0| && IdOf(c) < |n0| && n0[s.id].parent == ParentId(path) && ParentId(path) < |n0|
    ensures var r := if ParentId(path) == NIL then IdOf(c) else root0;
      Stored(Hang(n0, s.id, IdOf(c)), r, Plug(path, c)) && SearchTree(Plug(path, c))
      && Content(Plug(path, c)) == Content(Plug(path, s)) - {s.key}
  {
    CutSlots(n0, root0, path, s);
    CursorSlot(n0, path, s);
    RemoveOneRepr(n0, root0, path, s, c);
    HangMirrors(n0, n0, s.id, IdOf(c));
    var r := if ParentId(path) == NIL then IdOf(c) else root0;
    Unnull(Transplant(n0, s.id, IdOf(c)), Hang(n0, s.id, IdOf(c)), r, Plug(path, c));
    assert Keys(c) == Keys(s.left) + Keys(s.right) && Content(c) == Content(s.left) + Content(s.right);
    ContentRemove(path, s, c);
  }

  /**
   * The two-child branch of removeNode, as intended, when the successor m
   * is z's right child: transplant(z, m), m.left = z.left,
   * m.left.parent = m. The arena stores the tree with `Spliced(s)` in z's place.
   */
  lemma {:induction false} CutAdjacentStep<V>(b0: seq<Slot<(), V>>, b3: seq<Slot<(), V>>, b4: seq<Slot<(), V>>,
                                              b5: seq<Slot<(), V>>, root0: nat, path: seq<Frame<(), V>>, s: Bin<V>)
    requires Stored(b0, root0, Plug(path, s)) && SearchTree(Plug(path, s))
    requires s.Node? && s.left.Node? && s.right.Node? && s.right.left.Leaf?
    requires var z, m := s.id, s.right;
      z < |b0| && m.id < |b0| && b0[z].parent < |b0| && b3 == Hang(b0, z, m.id)
      && b4 == b3[m.id := b3[m.id].(left := b3[z].left)]
      && b4[m.id].left < |b4| && b5 == b4[b4[m.id].left := b4[b4[m.id].left].(parent := m.id)]
    ensures var r := if ParentId(path) == NIL then s.right.id else root0;
      Stored(b5, r, Plug(path, Spliced(s))) && SearchTree(Plug(path, Spliced(s)))
      && Content(Plug(path, Spliced(s))) == Content(Plug(path, s)) - {s.key}
  {
    var z, m := s.id, s.right;
    var py: seq<Frame<(), V>> := [];
    SuccessorSlots(b0, root0, path, s, py, m);
    // m's right child already names m as its parent: the write RB-DELETE makes there changes nothing.
    ReprPlug(b0, path, s);
    assert Repr(b0, m.right, m.id);
    var x := IdOf(m.right);
    var g1 := b0[x := b0[x].(parent := m.id)];
    assert Mirrors(b0, g1);
    var g3 := Transplant(g1, z, m.id);
    HangMirrors(b0, g1, z, m.id);
    var g4 := g3[m.id := g3[m.id].(left := g3[z].left)];
    assert Mirrors(b4, g4);
    var g5 := g4[g4[m.id].left := g4[g4[m.id].left].(parent := m.id)];
    assert b4[m.id].left == s.left.id;
    assert Mirrors(b5, g5);
    assert g5[m.id := g5[m.id].(aux := m.aux)] == g5;
    RemoveAdjacentRepr(b0, g1, g3, g4, g5, g5, root0, path, s, m.aux);
    var f := Frame(R, m.id, m.key, m.value, m.aux, s.left);
    assert py + ([f] + path) == [f] + path;
    SuccessorContent(path, s, py, m, m.aux);
    assert Spine(m) == (py, m);
    var r := if ParentId(path) == NIL then m.id else root0;
    Unnull(g5, b5, r, Plug(path, Spliced(s)));
  }

  /**
   * The two-child branch of removeNode, as intended, when the successor m
   * is deeper: transplant(m, m.right), m.right = z.right,
   * m.right.parent = m, then as in CutAdjacentStep. The arena stores the
   * tree with `Spliced(s)` in z's place.
   */
  lemma {:induction false} CutSuccessorStep<V>(b0: seq<Slot<(), V>>, b2: seq<Slot<(), V>>, b3: seq<Slot<(), V>>,
                                               b4: seq<Slot<(), V>>, b6: seq<Slot<(), V>>, b7: seq<Slot<(), V>>,
                                               b8: seq<Slot<(), V>>, root0: nat, path: seq<Frame<(), V>>, s: Bin<V>,
                                               py: seq<Frame<(), V>>, m: Bin<V>)
    requires Stored(b0, root0, Plug(path, s)) && SearchTree(Plug(path, s))
    requires s.Node? && s.left.Node? && s.right == Plug(py, m) && py != [] && AllLeft(py) && m.Node? && m.left.Leaf?
    requires var z, y := s.id, m.id;
      y < |b0| && IdOf(m.right) < |b0| && b0[y].parent < |b0| && b2 == Hang(b0, y, IdOf(m.right))
      && z < |b2| && b3 == b2[y := b2[y].(right := b2[z].right)]
      && b3[y].right < |b3| && b4 == b3[b3[y].right := b3[b3[y].right].(parent := y)]
      && b4[z].parent < |b4| && b6 == Hang(b4, z, y)
      && b7 == b6[y := b6[y].(left := b6[z].left)]
      && b7[y].left < |b7| && b8 == b7[b7[y].left := b7[b7[y].left].(parent := y)]
    ensures var r := if ParentId(path) == NIL then m.id else root0;
      Stored(b8, r, Plug(path, Spliced(s))) && SearchTree(Plug(path, Spliced(s)))
      && Content(Plug(path, Spliced(s))) == Content(Plug(path, s)) - {s.key}
  {
    var z, y := s.id, m.id;
    SuccessorSlots(b0, root0, path, s, py, m);
    CutSlots(b0, root0, path, s);
    PlugRoot(py, m, m);
    var g2 := Transplant(b0, y, IdOf(m.right));
    HangMirrors(b0, b0, y, IdOf(m.right));
    var g3 := g2[y := g2[y].(right := g2[z].right)];
    assert Mirrors(b3, g3);
    var g4 := g3[g3[y].right := g3[g3[y].right].(parent := y)];
    assert b3[y].right == IdOf(s.right) && IdOf(s.right) != NIL;
    assert Mirrors(b4, g4);
    var g6 := Transplant(g4, z, y);
    HangMirrors(b4, g4, z, y);
    var g7 := g6[y := g6[y].(left := g6[z].left)];
    assert Mirrors(b7, g7);
    var g8 := g7[g7[y].left := g7[g7[y].left].(parent := y)];
    assert b7[y].left == s.left.id;
    assert Mirrors(b8, g8);
    assert g8[y := g8[y].(aux := m.aux)] == g8;
    RemoveSuccessorRepr(b0, g2, g3, g4, g6, g7, g8, g8, root0, path, s, py, m, m.aux);
    SuccessorContent(path, s, py, m, m.aux);
    SpineUnique(py, m, s.right);
    var r := if ParentId(path) == NIL then m.id else root0;
    Unnull(g8, b8, r, Plug(path, Spliced(s)));
  }

  /**
   * Hanging a fresh node where the search for `key` ended, as insertNode
   * does: the slot is appended with `null` links; unless the tree was
   * empty, the parent links it on the side the comparison chose and the
   * node's parent link is set after. The arena stores the grown tree.
   */
  lemma {:induction false} LeafStep<V>(n0: seq<Slot<(), V>>, n1: seq<Slot<(), V>>, root0: nat, root1: nat,
                                       path: seq<Frame<(), V>>, key: int, value: V)
    requires Stored(n0, root0, Plug(path, Leaf)) && SearchTree(Plug(path, Leaf))
    requires Between(Before(path), key, After(path))
    requires var y := ParentId(path); var z := |n0|; var a := n0 + [Slot(key, value, (), NIL, NIL, NIL)];
      (y == NIL ==> n1 == a && root1 == z)
      && (y != NIL ==>
            y < |n0| && root1 == root0
            && n1 == (if key > a[y].key then a[y := a[y].(right := z)] else a[y := a[y].(left := z)])[z := a[z].(parent := y)])
    ensures var n := Fresh(|n0|, key, value);
      Stored(n1, root1, Plug(path, n)) && SearchTree(Plug(path, n))
      && Content(Plug(path, n)) == Content(Plug(path, Leaf))[key := value]
  {
    LeafParent(n0, path, key);
    var n := Fresh(|n0|, key, value);
    var slot := Slot(key, value, (), NIL, NIL, ParentId(path));
    if path != [] {
      var a := n0 + [slot];
      assert a[path[0].id] == n0[path[0].id];
      assert n1 == a[path[0].id := Relink(n0[path[0].id], path[0].side, |n0|)];
      PlugRoot(path, Leaf, n);
    }
    InsertLeafRepr(n0, n1, path, slot);
    ContentInsert(path, n);
  }

  // ------------------------------------------------------- as written

  /** Every link of every slot is an index of the arena. */
  ghost predicate Closed<V>(nodes: seq<Slot<(), V>>)
  {
    forall i :: 0 <= i < |nodes| ==> nodes[i].left < |nodes| && nodes[i].right < |nodes| && nodes[i].parent < |nodes|
  }

  /**
   * transplant(u, v) as written (BinaryTree.java:113-126): when u has no
   * parent only the root changes, and v keeps its parent link. Gives the
   * arena and the root.
   */
  function TransplantAsWritten<V>(nodes: seq<Slot<(), V>>, root: nat, u: nat, v: nat): (r: (seq<Slot<(), V>>, nat))
    requires Closed(nodes) && u < |nodes| && v < |nodes|
    ensures Closed(r.0) && |r.0| == |nodes| && (r.1 == root || r.1 == v)
  {
    var p := nodes[u].parent;
    if p == NIL then (nodes, v)
    else
      var n1 := nodes[p := Repoint(nodes[p], u, v)];
      (if v == NIL then n1 else n1[v := n1[v].(parent := p)], root)
  }

  /**
   * The two-child branch of removeNode as written (BinaryTree.java:139-146),
   * `x` being the node nodeWithMaximumKey(y.right) found: the last
   * statement points y's left child at y, the removed node. Gives the arena
   * and the root.
   */
  function TwoChildAsWritten<V>(nodes: seq<Slot<(), V>>, root: nat, y: nat, x: nat): (r: (seq<Slot<(), V>>, nat))
    requires Closed(nodes) && y < |nodes| && x < |nodes|
    ensures Closed(r.0) && |r.0| == |nodes|
  {
    var c := if nodes[x].parent != y then
        var t := TransplantAsWritten(nodes, root, x, nodes[x].right);
        var a := t.0[x := t.0[x].(right := t.0[y].right)];
        (a[a[x].right := a[a[x].right].(parent := x)], t.1)
      else (nodes, root);
    var t2 := TransplantAsWritten(c.0, c.1, y, x);
    var b := t2.0[x := t2.0[x].(left := t2.0[y].left)];
    (b[b[y].left := b[b[y].left].(parent := y)], t2.1)
  }

  /**
   * Inserting 1 then 2 (arena indices 1 and 2), removing 1, then removing 2.
   * The first removal makes 2 the root without clearing its parent link,
   * so the second one relinks the removed node 1 and leaves 2 the root:
   * the key 2 is still found. With the intended transplant, 2's parent link
   * is `null` after the first removal and the second one empties the tree.
   */
  lemma StaleRootExample<V>(v: V)
    ensures var n0 := [Slot(0, v, (), NIL, NIL, NIL), Slot(1, v, (), NIL, 2, NIL), Slot(2, v, (), NIL, NIL, 1)];
      var t := Node(Leaf, 1, 1, v, (), Fresh(2, 2, v));
      Stored(n0, 1, t) && Closed(n0)
      && var first := TransplantAsWritten(n0, 1, 1, 2);
      first.1 == 2 && first.0[2].parent == 1
      && TransplantAsWritten(first.0, first.1, 2, NIL).1 == 2
      && Hang(n0, 1, 2)[2].parent == NIL
  {
    var n0 := [Slot(0, v, (), NIL, NIL, NIL), Slot(1, v, (), NIL, 2, NIL), Slot(2, v, (), NIL, NIL, 1)];
    var t := Node(Leaf, 1, 1, v, (), Fresh(2, 2, v));
    assert Repr(n0, Fresh(2, 2, v), 1);
    assert Repr(n0, t, NIL);
    assert Ids(Fresh(2, 2, v)) == {} + {2} + {} == {2};
    assert Wf(Fresh(2, 2, v));
    assert Wf(t);
    assert Stored(n0, 1, t);
    assert Closed(n0);
    var first := TransplantAsWritten(n0, 1, 1, 2);
    assert first.1 == 2 && first.0[2].parent == 1;
    assert TransplantAsWritten(first.0, first.1, 2, NIL).1 == 2;
  }

  /**
   * Inserting 2, 1 and 3 (arena indices 1 to 3) and removing 2: x is 3,
   * which takes 2's place as the root with 1 as its left child, but 1's
   * parent link is set to 2, the removed node. A successorNode walk from 1
   * would climb to the removed node and answer its key.
   */
  lemma ParentLinkExample<V>(v: V)
    ensures var n0 := [Slot(0, v, (), NIL, NIL, NIL), Slot(2, v, (), 2, 3, NIL),
                       Slot(1, v, (), NIL, NIL, 1), Slot(3, v, (), NIL, NIL, 1)];
      var t := Node(Fresh(2, 1, v), 1, 2, v, (), Fresh(3, 3, v));
      Stored(n0, 1, t) && Closed(n0)
      && var r := TwoChildAsWritten(n0, 1, 1, 3);
      r.1 == 3 && r.0[3].left == 2 && r.0[2].parent == 1 && r.0[1].key == 2
  {
    var n0 := [Slot(0, v, (), NIL, NIL, NIL), Slot(2, v, (), 2, 3, NIL),
               Slot(1, v, (), NIL, NIL, 1), Slot(3, v, (), NIL, NIL, 1)];
    var t := Node(Fresh(2, 1, v), 1, 2, v, (), Fresh(3, 3, v));
    assert Repr(n0, Fresh(2, 1, v), 1) && Repr(n0, Fresh(3, 3, v), 1);
    assert Repr(n0, t, NIL);
    assert Ids(Fresh(2, 1, v)) == {} + {2} + {} == {2};
    assert Ids(Fresh(3, 3, v)) == {} + {3} + {} == {3};
    assert Wf(Fresh(2, 1, v)) && Wf(Fresh(3, 3, v));
    assert Wf(t);
    assert Stored(n0, 1, t);
    assert Closed(n0);
    var r := TwoChildAsWritten(n0, 1, 1, 3);
    assert r.1 == 3;
    assert r.0[3].left == 2;
    assert r.0[2].parent == 1;
  }
}
