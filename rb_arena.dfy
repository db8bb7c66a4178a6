/**
 * How the red-black tree's arena looks around the cursor of a fix-up loop,
 * and what the colour writes of the fix-up cases do to it. The rotations are
 * in ShapeFacts; here are the reads (parent, grandparent, uncle and sibling
 * slots and their colours) and the recolourings.
 */
module RBArena {
  import opened Shapes
  import opened ShapeFacts
  import opened RedBlack
  import opened Splice

  /** The arena stores `t` below `root`; the sentinel is black and has no left child. */
  ghost predicate Stores<V>(nodes: seq<Slot<Color, V>>, root: nat, t: Tree<Color, V>)
  {
    Stored(nodes, root, t) && nodes[NIL].aux == Black
  }

  /**
   * The insertion fix-up's loop invariant at cursor `z`: the arena stores
   * the tree, whose keys and entries are still `keys` and `content`, the
   * cursor satisfies InsertInv, and the loop guard reads the parent's colour.
   */
  ghost predicate InsertState<V>(nodes: seq<Slot<Color, V>>, root: nat, t: Tree<Color, V>, z: nat,
                                 path: seq<Frame<Color, V>>, s: Tree<Color, V>, keys: seq<int>, content: map<int, V>)
  {
    Stores(nodes, root, t) && t == Plug(path, s) && InsertInv(path, s) && z == s.id
    && Keys(t) == keys && Content(t) == content
    && z < |nodes| && nodes[z].parent == ParentId(path) && ParentId(path) < |nodes|
    && (nodes[ParentId(path)].aux == Red <==> path != [] && path[0].aux == Red)
  }

  /** The state before case 3 of the insertion fix-up: a black uncle, and z an outer grandchild. */
  ghost predicate InsertReady<V>(nodes: seq<Slot<Color, V>>, root: nat, t: Tree<Color, V>, z: nat,
                                 path: seq<Frame<Color, V>>, s: Tree<Color, V>, keys: seq<int>, content: map<int, V>)
  {
    Stores(nodes, root, t) && t == Plug(path, s) && InsertInv(path, s) && z == s.id
    && Keys(t) == keys && Content(t) == content
    && |path| >= 2 && path[0].aux == Red && ColorOf(path[1].sib) == Black && path[0].side == path[1].side
  }

  /** The slot of a stored subtree's root holds its colour; the sentinel is black. */
  lemma {:induction false} SlotColour<V>(nodes: seq<Slot<Color, V>>, t: Tree<Color, V>, p: nat)
    requires Repr(nodes, t, p) && |nodes| > 0 && nodes[NIL].aux == Black
    ensures IdOf(t) < |nodes| && nodes[IdOf(t)].aux == ColorOf(t)
  {
  }

  /** The colour the fix-up loops read at the cursor's parent. */
  lemma {:induction false} ParentColour<V>(nodes: seq<Slot<Color, V>>, path: seq<Frame<Color, V>>, s: Tree<Color, V>)
    requires Wf(Plug(path, s)) && Repr(nodes, Plug(path, s), NIL) && s.Node?
    requires |nodes| > 0 && nodes[NIL].aux == Black
    ensures s.id < |nodes| && nodes[s.id].parent == ParentId(path) && ParentId(path) < |nodes|
    ensures nodes[ParentId(path)].aux == Red <==> path != [] && path[0].aux == Red
  {
    CursorSlot(nodes, path, s);
  }

  /**
   * The slots the insertion fix-up reads around a cursor with a grandparent:
   * the parent and grandparent links, their colours, which side the parent
   * hangs from, and the uncle with its colour.
   */
  lemma {:induction false} FamilySlots<V>(nodes: seq<Slot<Color, V>>, path: seq<Frame<Color, V>>, s: Tree<Color, V>)
    requires Wf(Plug(path, s)) && Repr(nodes, Plug(path, s), NIL) && s.Node? && |path| >= 2
    requires |nodes| > 0 && nodes[NIL].aux == Black
    ensures s.id < |nodes| && nodes[s.id].parent == path[0].id
    ensures path[0].id < |nodes| && nodes[path[0].id].parent == path[1].id && nodes[path[0].id].aux == path[0].aux
    ensures nodes[path[0].id].left == s.id <==> path[0].side == L
    ensures nodes[path[0].id].right == s.id <==> path[0].side == R
    ensures path[1].id < |nodes| && nodes[path[1].id].aux == path[1].aux
    ensures nodes[path[1].id].left == path[0].id <==> path[1].side == L
    ensures path[1].side == L ==> nodes[path[1].id].right == IdOf(path[1].sib)
    ensures path[1].side == R ==> nodes[path[1].id].left == IdOf(path[1].sib)
    ensures IdOf(path[1].sib) < |nodes| && nodes[IdOf(path[1].sib)].aux == ColorOf(path[1].sib)
  {
    CursorSlot(nodes, path, s);
    assert Plug(path[1..], Attach(path[0], s)) == Plug(path, s);
    CursorSlot(nodes, path[1..], Attach(path[0], s));
    ParentSlot(nodes, path[1..], Attach(path[0], s));
    ReprPlug(nodes, path[1..], Attach(path[0], s));
    assert path[1..][0] == path[1];
    assert Repr(nodes, path[1].sib, path[1].id);
    SlotColour(nodes, path[1].sib, path[1].id);
  }

  /**
   * Case 1 of the insertion fix-up on the arena: the parent and the uncle
   * turn black and the grandparent red. The arena then stores the tree whose
   * cursor is the grandparent, with the same entries and the same root.
   */
  lemma {:induction false} InsertRecolorRepr<V>(n0: seq<Slot<Color, V>>, n1: seq<Slot<Color, V>>, n2: seq<Slot<Color, V>>, n3: seq<Slot<Color, V>>,
                             path: seq<Frame<Color, V>>, s: Tree<Color, V>)
    requires Wf(Plug(path, s)) && Repr(n0, Plug(path, s), NIL) && s.Node? && |path| >= 2 && path[1].sib.Node?
    requires path[0].id < |n0| && n1 == n0[path[0].id := n0[path[0].id].(aux := Black)]
    requires path[1].sib.id < |n1| && n2 == n1[path[1].sib.id := n1[path[1].sib.id].(aux := Black)]
    requires path[1].id < |n2| && n3 == n2[path[1].id := n2[path[1].id].(aux := Red)]
    ensures var p := path[0].(aux := Black);
      var g := path[1].(aux := Red, sib := path[1].sib.(aux := Black));
      var t := Plug(path[2..], Attach(g, Attach(p, s)));
      Wf(t) && Repr(n3, t, NIL) && Keys(t) == Keys(Plug(path, s)) && Content(t) == Content(Plug(path, s))
      && IdOf(t) == IdOf(Plug(path, s))
    ensures |n3| == |n0| && n3[NIL] == n0[NIL]
  {
    var p := path[0].(aux := Black);
    var a := Attach(p, s);
    var g := path[1].(aux := Red, sib := path[1].sib.(aux := Black));
    var rest := path[2..];
    assert path[1..] == [path[1]] + rest;
    // the parent
    assert Plug(path[1..], Attach(path[0], s)) == Plug(path, s);
    PaintRepr(n0, path[1..], Attach(path[0], s), Black);
    assert Attach(path[0], s).(aux := Black) == a;
    // the uncle
    var up := [Flip(path[1], a)] + rest;
    FlipPlug(path[1..], a, path[1].sib);
    assert Plug(up, path[1].sib) == Plug(path[1..], a);
    PaintRepr(n1, up, path[1].sib, Black);
    FlipPlug(path[1..], a, path[1].sib.(aux := Black));
    var g1 := path[1].(sib := path[1].sib.(aux := Black));
    assert [path[1..][0].(sib := path[1].sib.(aux := Black))] + path[1..][1..] == [g1] + rest;
    assert Plug([g1] + rest, a) == Plug(rest, Attach(g1, a));
    // the grandparent
    PaintRepr(n2, rest, Attach(g1, a), Red);
    assert Attach(g1, a).(aux := Red) == Attach(g, a);
  }

  /**
   * Case 3 of the insertion fix-up on the arena, before its rotation: the
   * parent turns black and the grandparent red.
   */
  lemma {:induction false} InsertPaintTwoRepr<V>(n0: seq<Slot<Color, V>>, n1: seq<Slot<Color, V>>, n2: seq<Slot<Color, V>>,
                              path: seq<Frame<Color, V>>, s: Tree<Color, V>)
    requires Wf(Plug(path, s)) && Repr(n0, Plug(path, s), NIL) && s.Node? && |path| >= 2
    requires path[0].id < |n0| && n1 == n0[path[0].id := n0[path[0].id].(aux := Black)]
    requires path[1].id < |n1| && n2 == n1[path[1].id := n1[path[1].id].(aux := Red)]
    ensures var t := Plug(path[2..], Attach(path[1].(aux := Red), Attach(path[0].(aux := Black), s)));
      Wf(t) && Repr(n2, t, NIL) && Keys(t) == Keys(Plug(path, s)) && Content(t) == Content(Plug(path, s))
      && IdOf(t) == IdOf(Plug(path, s))
    ensures |n2| == |n0| && n2[NIL] == n0[NIL]
  {
    var a := Attach(path[0].(aux := Black), s);
    var rest := path[2..];
    assert path[1..] == [path[1]] + rest;
    assert Plug(path[1..], Attach(path[0], s)) == Plug(path, s);
    PaintRepr(n0, path[1..], Attach(path[0], s), Black);
    assert Attach(path[0], s).(aux := Black) == a;
    assert Plug(path[1..], a) == Plug(rest, Attach(path[1], a));
    PaintRepr(n1, rest, Attach(path[1], a), Red);
    assert Attach(path[1], a).(aux := Red) == Attach(path[1].(aux := Red), a);
  }

  /** Case 1 of the insertion fix-up keeps the loop invariant, two levels up. */
  lemma {:induction false} InsertRecolorStep<V>(n0: seq<Slot<Color, V>>, n1: seq<Slot<Color, V>>, n2: seq<Slot<Color, V>>, n3: seq<Slot<Color, V>>,
                                                root: nat, z: nat, path: seq<Frame<Color, V>>, s: Tree<Color, V>,
                                                keys: seq<int>, content: map<int, V>)
    requires InsertState(n0, root, Plug(path, s), z, path, s, keys, content)
    requires |path| >= 2 && path[0].aux == Red && path[1].sib.Node? && path[1].sib.aux == Red
    requires path[0].id < |n0| && n1 == n0[path[0].id := n0[path[0].id].(aux := Black)]
    requires path[1].sib.id < |n1| && n2 == n1[path[1].sib.id := n1[path[1].sib.id].(aux := Black)]
    requires path[1].id < |n2| && n3 == n2[path[1].id := n2[path[1].id].(aux := Red)]
    ensures var s' := Attach(path[1].(aux := Red, sib := path[1].sib.(aux := Black)), Attach(path[0].(aux := Black), s));
      InsertState(n3, root, Plug(path[2..], s'), path[1].id, path[2..], s', keys, content)
  {
    var s' := Attach(path[1].(aux := Red, sib := path[1].sib.(aux := Black)), Attach(path[0].(aux := Black), s));
    InsertRecolorRepr(n0, n1, n2, n3, path, s);
    InsertRecolor(path, s);
    ParentColour(n3, path[2..], s');
  }

  /** Case 2 of the insertion fix-up: after the rotation at the parent, the old parent is the cursor, ready for case 3. */
  lemma {:induction false} InsertRotateParentStep<V>(nodes: seq<Slot<Color, V>>, root: nat, t: Tree<Color, V>,
                                                     path: seq<Frame<Color, V>>, s: Tree<Color, V>,
                                                     keys: seq<int>, content: map<int, V>)
    requires InsertInv(path, s) && |path| >= 2 && path[0].aux == Red && ColorOf(path[1].sib) == Black
    requires path[0].side != path[1].side
    requires Stores(nodes, root, t) && t == Plug(path[1..], Rotate(Attach(path[0], s), Opp(path[0].side)))
    requires Keys(t) == keys && Content(t) == content
    ensures var d := Opp(path[0].side);
      InsertReady(nodes, root, t, path[0].id, [FrameOf(s, d)] + path[1..], Attach(path[0], Child(s, d)), keys, content)
  {
    SwapUp(path, s);
    InsertRotateParent(path, s);
  }

  /** Case 3 of the insertion fix-up, before its rotation: the parent turns black and the grandparent red. */
  lemma {:induction false} InsertPaintStep<V>(n0: seq<Slot<Color, V>>, n1: seq<Slot<Color, V>>, n2: seq<Slot<Color, V>>,
                                              root: nat, z: nat, path: seq<Frame<Color, V>>, s: Tree<Color, V>,
                                              keys: seq<int>, content: map<int, V>)
    requires InsertReady(n0, root, Plug(path, s), z, path, s, keys, content)
    requires path[0].id < |n0| && n1 == n0[path[0].id := n0[path[0].id].(aux := Black)]
    requires path[1].id < |n1| && n2 == n1[path[1].id := n1[path[1].id].(aux := Red)]
    ensures var u := Attach(path[1].(aux := Red), Attach(path[0].(aux := Black), s));
      Stores(n2, root, Plug(path[2..], u)) && Keys(Plug(path[2..], u)) == keys && Content(Plug(path[2..], u)) == content
      && u.id == path[1].id && Child(u, path[1].side).Node?
  {
    InsertPaintTwoRepr(n0, n1, n2, path, s);
  }

  /** Case 3 of the insertion fix-up, after its rotation: the cursor's parent is black, so the loop ends. */
  lemma {:induction false} InsertLiftStep<V>(nodes: seq<Slot<Color, V>>, root: nat, t: Tree<Color, V>,
                                             path: seq<Frame<Color, V>>, s: Tree<Color, V>,
                                             keys: seq<int>, content: map<int, V>)
    requires InsertInv(path, s) && |path| >= 2 && path[0].aux == Red && ColorOf(path[1].sib) == Black
    requires path[0].side == path[1].side
    requires var u := Attach(path[1].(aux := Red), Attach(path[0].(aux := Black), s));
      Stores(nodes, root, t) && Child(u, path[1].side).Node? && t == Plug(path[2..], Rotate(u, Opp(path[1].side)))
    requires Keys(t) == keys && Content(t) == content
    ensures var q0 := path[0].(aux := Black);
      var path' := [q0.(sib := Attach(path[1].(aux := Red), q0.sib))] + path[2..];
      InsertState(nodes, root, t, s.id, path', s, keys, content) && |path'| < |path|
  {
    var q0 := path[0].(aux := Black);
    var q1 := path[1].(aux := Red);
    var pq := [q0, q1] + path[2..];
    assert pq[0] == q0 && pq[1] == q1 && pq[2..] == path[2..];
    LiftParent(pq, s);
    InsertRotateGrandparent(path, s);
    var path' := [q0.(sib := Attach(q1, q0.sib))] + path[2..];
    ParentColour(nodes, path', s);
  }

  /** Overwriting the value at a found node keeps the arena, the order and the colours, and updates the entry. */
  lemma {:induction false} InsertOverwriteStep<V>(nodes: seq<Slot<Color, V>>, root: nat, path: seq<Frame<Color, V>>,
                                                  s: Tree<Color, V>, value: V)
    requires Stores(nodes, root, Plug(path, s)) && SearchTree(Plug(path, s)) && IsRedBlack(Plug(path, s)) && s.Node?
    ensures s.id < |nodes|
    ensures var t := Plug(path, s.(value := value));
      Stores(nodes[s.id := nodes[s.id].(value := value)], root, t) && SearchTree(t) && IsRedBlack(t)
      && Content(t) == Content(Plug(path, s))[s.key := value]
  {
    RewriteRepr(nodes, path, s, s.key, value, s.aux);
    ContentRevalue(path, s, value);
    RevalueRedBlack(path, s, value);
    if path != [] {
      PlugRoot(path, s, s.(value := value));
    }
  }

  /**
   * Hanging a new red node with `nil` children where the search for `key`
   * ended: the arena stores the grown tree, which is still ordered, holds the
   * new entry, and satisfies the insertion fix-up's invariant at the new node.
   */
  lemma {:induction false} InsertLeafStep<V>(n0: seq<Slot<Color, V>>, n1: seq<Slot<Color, V>>, root0: nat, root1: nat,
                                             path: seq<Frame<Color, V>>, key: int, value: V)
    requires Stores(n0, root0, Plug(path, Leaf)) && SearchTree(Plug(path, Leaf)) && IsRedBlack(Plug(path, Leaf))
    requires Between(Before(path), key, After(path))
    requires var y := ParentId(path); var z := |n0|; var a := n0 + [Slot(key, value, Red, NIL, NIL, y)];
      (y == NIL ==> n1 == a && root1 == z)
      && (y != NIL ==> y < |n0| && root1 == root0 && n1 == a[y := if key > a[y].key then a[y].(right := z) else a[y].(left := z)])
    ensures var n := Node(Leaf, |n0|, key, value, Red, Leaf);
      Stores(n1, root1, Plug(path, n)) && SearchTree(Plug(path, n)) && InsertInv(path, n)
      && Content(Plug(path, n)) == Content(Plug(path, Leaf))[key := value]
  {
    LeafParent(n0, path, key);
    var n := Node(Leaf, |n0|, key, value, Red, Leaf);
    var slot := Slot(key, value, Red, NIL, NIL, ParentId(path));
    if path != [] {
      var a := n0 + [slot];
      assert a[path[0].id] == n0[path[0].id];
      assert n1 == a[path[0].id := Relink(n0[path[0].id], path[0].side, |n0|)];
      PlugRoot(path, Leaf, n);
    }
    InsertLeafRepr(n0, n1, path, slot);
    ContentInsert(path, n);
    InsertStart(path, n);
  }
}
