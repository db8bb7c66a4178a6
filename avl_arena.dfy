/**
 * The AVL tree's arena: what its factor writes, its insertion of a leaf and
 * its three ways of cutting a node out do to the stored tree. The cutting
 * is the one RB-DELETE does (module Splice), except that the successor
 * keeps its own balance factor: deleteNodeFromAVLTree does not copy the
 * removed node's factor to it.
 */
module AvlArena {
  import opened Shapes
  import opened ShapeFacts
  import opened Splice
  import opened Avl

  /** The arena stores `t` below `root`; the sentinel keeps factor 0 and has no left child. */
  ghost predicate Holds<V>(nodes: seq<Slot<int, V>>, root: nat, t: Tree<int, V>)
  {
    Stored(nodes, root, t) && nodes[NIL].aux == 0
  }

  /**
   * What a removal leaves for balanceForDeletingNode: the arena stores a
   * search tree holding `content`, and the cursor x (possibly `nil`) is
   * the subtree that took the removed node's (or the successor's) place.
   */
  ghost predicate Cut<V>(nodes: seq<Slot<int, V>>, root: nat, t: Tree<int, V>, x: nat,
                         path: seq<Frame<int, V>>, s: Tree<int, V>, content: map<int, V>)
  {
    Holds(nodes, root, t) && t == Plug(path, s) && x == IdOf(s) && SearchTree(t) && Content(t) == content
  }

  /** Writing the balance factor of the cursor's node keeps the arena, the keys and the entries. */
  lemma {:induction false} FactorStep<V>(nodes: seq<Slot<int, V>>, root: nat, path: seq<Frame<int, V>>, s: Tree<int, V>, f: int)
    requires Holds(nodes, root, Plug(path, s)) && s.Node?
    ensures s.id != NIL && s.id < |nodes| && nodes[s.id].aux == s.aux
    ensures var t := Plug(path, s.(aux := f));
      Holds(nodes[s.id := nodes[s.id].(aux := f)], root, t)
      && Keys(t) == Keys(Plug(path, s)) && Content(t) == Content(Plug(path, s))
  {
    CursorSlot(nodes, path, s);
    PaintRepr(nodes, path, s, f);
  }

  /**
   * What isBalanced reads at the cursor: `nil`, whose factor is 0, exactly
   * at an empty subtree; otherwise the node's factor and children, below
   * which the whole subtree's factors are in -1..1 exactly when its own and
   * those of both children's subtrees are.
   */
  lemma SlotFactor<V>(nodes: seq<Slot<int, V>>, root: nat, path: seq<Frame<int, V>>, s: Tree<int, V>)
    requires Holds(nodes, root, Plug(path, s))
    ensures IdOf(s) < |nodes| && (IdOf(s) == NIL <==> s.Leaf?)
    ensures s.Leaf? ==> nodes[NIL].aux == 0 && Bounded(s)
    ensures s.Node? ==>
              nodes[s.id].aux == s.aux && nodes[s.id].left == IdOf(s.left) && nodes[s.id].right == IdOf(s.right)
              && Plug([FrameOf(s, L)] + path, s.left) == Plug(path, s) && Plug([FrameOf(s, R)] + path, s.right) == Plug(path, s)
              && (Bounded(s) <==> Bounded(s.left) && -1 <= s.aux <= 1 && Bounded(s.right))
  {
    LeafAtNil(path, s);
    if s.Node? {
      CursorSlot(nodes, path, s);
      BoundedNode(s);
      assert Plug([FrameOf(s, L)] + path, s.left) == Plug(path, Attach(FrameOf(s, L), s.left));
      assert Plug([FrameOf(s, R)] + path, s.right) == Plug(path, Attach(FrameOf(s, R), s.right));
    } else {
      assert Factors(s) == [];
    }
  }

  /** Overwriting the value at a found node keeps the arena and the order, and updates the entry. */
  lemma {:induction false} OverwriteStep<V>(nodes: seq<Slot<int, V>>, root: nat, path: seq<Frame<int, V>>,
                                            s: Tree<int, V>, value: V)
    requires Holds(nodes, root, Plug(path, s)) && SearchTree(Plug(path, s)) && s.Node?
    ensures s.id < |nodes|
    ensures var t := Plug(path, s.(value := value));
      Holds(nodes[s.id := nodes[s.id].(value := value)], root, t) && SearchTree(t)
      && Content(t) == Content(Plug(path, s))[s.key := value]
  {
    RewriteRepr(nodes, path, s, s.key, value, s.aux);
    ContentRevalue(path, s, value);
    if path != [] {
      PlugRoot(path, s, s.(value := value));
    }
  }

  /**
   * Hanging a new node with factor 0 and `nil` children where the search
   * for `key` ended: the arena stores the grown tree, which is still
   * ordered and holds the new entry.
   */
  lemma {:induction false} LeafStep<V>(n0: seq<Slot<int, V>>, n1: seq<Slot<int, V>>, root0: nat, root1: nat,
                                       path: seq<Frame<int, V>>, key: int, value: V)
    requires Holds(n0, root0, Plug(path, Leaf)) && SearchTree(Plug(path, Leaf))
    requires Between(Before(path), key, After(path))
    requires var y := ParentId(path); var z := |n0|; var a := n0 + [Slot(key, value, 0, NIL, NIL, y)];
      (y == NIL ==> n1 == a && root1 == z)
      && (y != NIL ==> y < |n0| && root1 == root0 && n1 == a[y := if key > a[y].key then a[y].(right := z) else a[y].(left := z)])
    ensures var n := NewNode(|n0|, key, value);
      Holds(n1, root1, Plug(path, n)) && SearchTree(Plug(path, n))
      && Content(Plug(path, n)) == Content(Plug(path, Leaf))[key := value]
  {
    LeafParent(n0, path, key);
    var n := NewNode(|n0|, key, value);
    var slot := Slot(key, value, 0, NIL, NIL, ParentId(path));
    if path != [] {
      var a := n0 + [slot];
      assert a[path[0].id] == n0[path[0].id];
      assert n1 == a[path[0].id := Relink(n0[path[0].id], path[0].side, |n0|)];
      PlugRoot(path, Leaf, n);
    }
    InsertLeafRepr(n0, n1, path, slot);
    ContentInsert(path, n);
  }

  /** Removing a node with an empty child by transplant(z, c), where `c` is its other child. */
  lemma {:induction false} CutOneStep<V>(n0: seq<Slot<int, V>>, root0: nat, path: seq<Frame<int, V>>, s: Tree<int, V>, c: Tree<int, V>)
    requires Holds(n0, root0, Plug(path, s)) && SearchTree(Plug(path, s)) && s.Node?
    requires (s.left.Leaf? && c == s.right) || (s.right.Leaf? && c == s.left)
    ensures s.id < |n0| && IdOf(c) < |n0| && ParentId(path) < |n0| && n0[s.id].parent == ParentId(path)
    ensures Cut(Transplant(n0, s.id, IdOf(c)), if ParentId(path) == NIL then IdOf(c) else root0,
                Plug(path, c), IdOf(c), path, c, Content(Plug(path, s)) - {s.key})
  {
    RemoveOneRepr(n0, root0, path, s, c);
    var n := Transplant(n0, s.id, IdOf(c));
    var r := if ParentId(path) == NIL then IdOf(c) else root0;
    assert Holds(n, r, Plug(path, c));
    assert Keys(c) == Keys(s.left) + Keys(s.right) && Content(c) == Content(s.left) + Content(s.right);
    ContentRemove(path, s, c);
  }

  /**
   * The two-child branch of deleteNodeFromAVLTree when the successor m is
   * the right child: m takes the node's place and left subtree and keeps
   * its own factor; the cursor is m's right child.
   */
  lemma {:induction false} CutAdjacentStep<V>(a0: seq<Slot<int, V>>, a1: seq<Slot<int, V>>, a3: seq<Slot<int, V>>,
                                              a4: seq<Slot<int, V>>, a5: seq<Slot<int, V>>,
                                              root0: nat, path: seq<Frame<int, V>>, s: Tree<int, V>)
    requires Holds(a0, root0, Plug(path, s)) && SearchTree(Plug(path, s))
    requires s.Node? && s.left.Node? && s.right.Node? && s.right.left.Leaf?
    requires var z, m := s.id, s.right;
      z < |a0| && m.id < |a0| && IdOf(m.right) < |a0|
      && a1 == a0[IdOf(m.right) := a0[IdOf(m.right)].(parent := m.id)]
      && a1[z].parent < |a1| && a3 == Transplant(a1, z, m.id)
      && |a3| == |a0| && a4 == a3[m.id := a3[m.id].(left := a3[z].left)]
      && a4[m.id].left < |a4| && a5 == a4[a4[m.id].left := a4[a4[m.id].left].(parent := m.id)]
    ensures var m := s.right;
      var xpath := [Frame(R, m.id, m.key, m.value, m.aux, s.left)] + path;
      Cut(a5, if ParentId(path) == NIL then m.id else root0, Plug(xpath, m.right), IdOf(m.right),
          xpath, m.right, Content(Plug(path, s)) - {s.key})
  {
    var m := s.right;
    MinSlot(a0, path, s, [], m);
    CutSlots(a0, root0, path, s);
    assert a5[m.id].aux == m.aux;
    assert a5[m.id := a5[m.id].(aux := m.aux)] == a5;
    RemoveAdjacentRepr(a0, a1, a3, a4, a5, a5, root0, path, s, m.aux);
    var py: seq<Frame<int, V>> := [];
    assert s.right == Plug(py, m) && AllLeft(py);
    assert py + ([Frame(R, m.id, m.key, m.value, m.aux, s.left)] + path) == [Frame(R, m.id, m.key, m.value, m.aux, s.left)] + path;
    SuccessorContent(path, s, py, m, m.aux);
  }

  /**
   * The two-child branch of deleteNodeFromAVLTree when the successor m is
   * deeper: m's right subtree takes m's place, then m takes the node's
   * place and both subtrees and keeps its own factor; the cursor is m's old
   * right child below m's old parent.
   */
  lemma {:induction false} CutSuccessorStep<V>(n0: seq<Slot<int, V>>, n2: seq<Slot<int, V>>, n3: seq<Slot<int, V>>,
                                               n4: seq<Slot<int, V>>, n6: seq<Slot<int, V>>, n7: seq<Slot<int, V>>,
                                               n8: seq<Slot<int, V>>,
                                               root0: nat, path: seq<Frame<int, V>>, s: Tree<int, V>,
                                               py: seq<Frame<int, V>>, m: Tree<int, V>)
    requires Holds(n0, root0, Plug(path, s)) && SearchTree(Plug(path, s))
    requires s.Node? && s.left.Node? && s.right == Plug(py, m) && py != [] && AllLeft(py) && m.Node? && m.left.Leaf?
    requires var z, y := s.id, m.id;
      y < |n0| && IdOf(m.right) < |n0| && n0[y].parent < |n0| && n2 == Transplant(n0, y, IdOf(m.right))
      && |n2| == |n0| && z < |n2| && n3 == n2[y := n2[y].(right := n2[z].right)]
      && n3[y].right < |n3| && n4 == n3[n3[y].right := n3[n3[y].right].(parent := y)]
      && n4[z].parent < |n4| && n6 == Transplant(n4, z, y)
      && |n6| == |n0| && n7 == n6[y := n6[y].(left := n6[z].left)]
      && n7[y].left < |n7| && n8 == n7[n7[y].left := n7[n7[y].left].(parent := y)]
    ensures var xpath := py + ([Frame(R, m.id, m.key, m.value, m.aux, s.left)] + path);
      Cut(n8, if ParentId(path) == NIL then m.id else root0, Plug(xpath, m.right), IdOf(m.right),
          xpath, m.right, Content(Plug(path, s)) - {s.key})
  {
    SuccessorSlots(n0, root0, path, s, py, m);
    assert n8[m.id].aux == m.aux;
    assert n8[m.id := n8[m.id].(aux := m.aux)] == n8;
    RemoveSuccessorRepr(n0, n2, n3, n4, n6, n7, n8, n8, root0, path, s, py, m, m.aux);
    SuccessorContent(path, s, py, m, m.aux);
  }
}
