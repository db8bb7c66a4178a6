/**
 * deleteRBfixUp on the arena. The loop's state is a removal state with a
 * black removed colour (`Removed(…, Black, …)`): the cursor x carries an
 * extra black. Each case of the loop body is a paint lemma (the colour
 * writes before a rotation) and a step lemma (the state after it); the
 * lemmas take the side of x as a parameter, so one lemma serves a case and
 * its mirror image.
 */
module RBDelete {
  import opened Shapes
  import opened ShapeFacts
  import opened RedBlack
  import opened RBArena
  import opened RBRemoval

  /** Repainting one stored node keeps the arena storing the repainted tree, with the same root and entries. */
  lemma {:induction false} PaintStores<V>(nodes: seq<Slot<Color, V>>, root: nat, path: seq<Frame<Color, V>>, s: Tree<Color, V>, c: Color)
    requires Stores(nodes, root, Plug(path, s)) && s.Node?
    ensures s.id != NIL && s.id < |nodes|
    ensures var n := nodes[s.id := nodes[s.id].(aux := c)];
      Stores(n, root, Plug(path, s.(aux := c))) && n[NIL] == nodes[NIL]
      && Keys(Plug(path, s.(aux := c))) == Keys(Plug(path, s)) && Content(Plug(path, s.(aux := c))) == Content(Plug(path, s))
  {
    PaintRepr(nodes, path, s, c);
  }

  /**
   * The fix-up's state at a stored cursor: a real cursor's parent link is
   * read from the arena; a `nil` cursor's parent link must be given.
   */
  lemma {:induction false} RemovedFrom<V>(nodes: seq<Slot<Color, V>>, root: nat, path: seq<Frame<Color, V>>, s: Tree<Color, V>,
                                          content: map<int, V>)
    requires Stores(nodes, root, Plug(path, s)) && SearchTree(Plug(path, s)) && Content(Plug(path, s)) == content
    requires DeleteInv(path, s) && (s.Leaf? ==> nodes[NIL].parent == ParentId(path))
    ensures Removed(nodes, root, Plug(path, s), IdOf(s), path, s, Black, content)
  {
    if s.Node? {
      CursorSlot(nodes, path, s);
    }
  }

  /** The loop guard `x != root && x.color == BLACK` reads whether x is below the root and its colour. */
  lemma {:induction false} DeleteGuard<V>(nodes: seq<Slot<Color, V>>, root: nat, t: Tree<Color, V>, x: nat,
                                          path: seq<Frame<Color, V>>, s: Tree<Color, V>, content: map<int, V>)
    requires Removed(nodes, root, t, x, path, s, Black, content)
    ensures (x != root <==> path != []) && nodes[x].aux == ColorOf(s)
  {
    RootIsCursor(path, s);
    if s.Node? {
      CursorSlot(nodes, path, s);
    }
  }

  /**
   * The slots one round of the fix-up reads: x's parent p with its colour,
   * which side x hangs from (even when x is `nil`), the sibling w with its
   * colour, and w's children with their colours.
   */
  lemma {:induction false} DeleteFamily<V>(nodes: seq<Slot<Color, V>>, root: nat, t: Tree<Color, V>, x: nat,
                                           path: seq<Frame<Color, V>>, s: Tree<Color, V>, content: map<int, V>)
    requires Removed(nodes, root, t, x, path, s, Black, content) && path != []
    ensures path[0].sib.Node?
    ensures var p, w := path[0].id, path[0].sib;
      nodes[x].parent == p && p < |nodes| && p != NIL && nodes[p].aux == path[0].aux
      && (nodes[p].left == x <==> path[0].side == L)
      && (path[0].side == L ==> nodes[p].right == w.id) && (path[0].side == R ==> nodes[p].left == w.id)
      && w.id < |nodes| && w.id != NIL && nodes[w.id].aux == w.aux
      && nodes[w.id].left == IdOf(w.left) && nodes[w.id].right == IdOf(w.right)
      && IdOf(w.left) < |nodes| && nodes[IdOf(w.left)].aux == ColorOf(w.left)
      && IdOf(w.right) < |nodes| && nodes[IdOf(w.right)].aux == ColorOf(w.right)
  {
    DeleteSibling(path, s);
    var a := Attach(path[0], s);
    var w := path[0].sib;
    assert Plug(path[1..], a) == t;
    CursorSlot(nodes, path[1..], a);
    WfPlug(path[1..], a);
    WfNonNil(a);
    assert Ids(s) !! Ids(w) && w.id in Ids(w);
    assert s.Node? ==> s.id in Ids(s);
    var up := [Flip(path[0], s)] + path[1..];
    FlipPlug(path, s, w);
    assert [path[0].(sib := w)] + path[1..] == path;
    CursorSlot(nodes, up, w);
    ReprPlug(nodes, up, w);
    SlotColour(nodes, w.left, w.id);
    SlotColour(nodes, w.right, w.id);
  }

  // ------------------------------------------------------------------ case 1

  /** Case 1 before its rotation: the red sibling turns black and the parent red. */
  lemma {:induction false} RedSiblingPaint<V>(n0: seq<Slot<Color, V>>, n1: seq<Slot<Color, V>>, n2: seq<Slot<Color, V>>,
                                              root: nat, path: seq<Frame<Color, V>>, s: Tree<Color, V>, content: map<int, V>)
    requires Removed(n0, root, Plug(path, s), IdOf(s), path, s, Black, content) && path != []
    requires path[0].sib.Node? && path[0].sib.aux == Red
    requires path[0].sib.id < |n0| && n1 == n0[path[0].sib.id := n0[path[0].sib.id].(aux := Black)]
    requires path[0].id < |n1| && n2 == n1[path[0].id := n1[path[0].id].(aux := Red)]
    ensures var u := Attach(path[0].(aux := Red, sib := path[0].sib.(aux := Black)), s);
      Stores(n2, root, Plug(path[1..], u)) && SearchTree(Plug(path[1..], u)) && Content(Plug(path[1..], u)) == content
      && u.id == path[0].id && Child(u, Opp(path[0].side)).Node? && n2[NIL] == n0[NIL]
  {
    var w := path[0].sib;
    var up := [Flip(path[0], s)] + path[1..];
    FlipPlug(path, s, w);
    assert [path[0].(sib := w)] + path[1..] == path;
    PaintStores(n0, root, up, w, Black);
    FlipPlug(path, s, w.(aux := Black));
    var q := path[0].(sib := w.(aux := Black));
    assert ([q] + path[1..])[1..] == path[1..];
    assert Plug([q] + path[1..], s) == Plug(path[1..], Attach(q, s));
    PaintStores(n1, root, path[1..], Attach(q, s), Red);
    assert Attach(q, s).(aux := Red) == Attach(path[0].(aux := Red, sib := w.(aux := Black)), s);
  }

  /**
   * Case 1 after its rotation at the parent towards x: x keeps its subtree
   * and its parent, which is now red, and its new sibling is w's near child,
   * which is black.
   */
  lemma {:induction false} RedSiblingStep<V>(nodes: seq<Slot<Color, V>>, root: nat, path: seq<Frame<Color, V>>, s: Tree<Color, V>,
                                             content: map<int, V>)
    requires DeleteInv(path, s) && path != [] && ColorOf(s) == Black && path[0].sib.Node? && path[0].sib.aux == Red
    requires var u := Attach(path[0].(aux := Red, sib := path[0].sib.(aux := Black)), s);
      Child(u, Opp(path[0].side)).Node? && var t := Plug(path[1..], Rotate(u, path[0].side));
      Stores(nodes, root, t) && SearchTree(t) && Content(t) == content
    requires s.Leaf? ==> nodes[NIL].parent == path[0].id
    ensures var d := path[0].side;
      var q0 := path[0].(aux := Red, sib := path[0].sib.(aux := Black));
      var path' := [q0.(sib := Child(q0.sib, d)), FrameOf(q0.sib, d)] + path[1..];
      Removed(nodes, root, Plug(path', s), IdOf(s), path', s, Black, content)
      && path'[0].aux == Red && path'[0].sib.Node? && path'[0].sib.aux == Black && |path'| == |path| + 1
  {
    var q0 := path[0].(aux := Red, sib := path[0].sib.(aux := Black));
    var qp := [q0] + path[1..];
    assert qp[0] == q0 && qp[1..] == path[1..];
    RotateDown(qp, s);
    DeleteRedSibling(path, s);
    var path' := [q0.(sib := Child(q0.sib, path[0].side)), FrameOf(q0.sib, path[0].side)] + path[1..];
    RemovedFrom(nodes, root, path', s, content);
  }

  // ------------------------------------------------------------------ case 2

  /** Case 2: the black sibling with two black children turns red, and x moves up to its parent. */
  lemma {:induction false} RecolorStep<V>(n0: seq<Slot<Color, V>>, n1: seq<Slot<Color, V>>, root: nat,
                                          path: seq<Frame<Color, V>>, s: Tree<Color, V>, content: map<int, V>)
    requires Removed(n0, root, Plug(path, s), IdOf(s), path, s, Black, content) && path != [] && ColorOf(s) == Black
    requires path[0].sib.Node? && path[0].sib.aux == Black
    requires ColorOf(path[0].sib.left) == Black && ColorOf(path[0].sib.right) == Black
    requires path[0].sib.id < |n0| && n1 == n0[path[0].sib.id := n0[path[0].sib.id].(aux := Red)]
    ensures var s' := Attach(path[0].(sib := path[0].sib.(aux := Red)), s);
      Removed(n1, root, Plug(path[1..], s'), path[0].id, path[1..], s', Black, content)
  {
    var w := path[0].sib;
    var up := [Flip(path[0], s)] + path[1..];
    FlipPlug(path, s, w);
    assert [path[0].(sib := w)] + path[1..] == path;
    PaintStores(n0, root, up, w, Red);
    FlipPlug(path, s, w.(aux := Red));
    var q := path[0].(sib := w.(aux := Red));
    assert ([q] + path[1..])[1..] == path[1..];
    assert Plug([q] + path[1..], s) == Plug(path[1..], Attach(q, s));
    DeleteRecolor(path, s);
    RemovedFrom(n1, root, path[1..], Attach(q, s), content);
  }

  // ------------------------------------------------------------------ case 3

  /** Case 3 before its rotation: w's red near child turns black and w red. */
  lemma {:induction false} NearPaint<V>(n0: seq<Slot<Color, V>>, n1: seq<Slot<Color, V>>, n2: seq<Slot<Color, V>>,
                                        root: nat, path: seq<Frame<Color, V>>, s: Tree<Color, V>, content: map<int, V>)
    requires Removed(n0, root, Plug(path, s), IdOf(s), path, s, Black, content) && path != []
    requires path[0].sib.Node? && Child(path[0].sib, path[0].side).Node?
    requires var n := Child(path[0].sib, path[0].side);
      n.id < |n0| && n1 == n0[n.id := n0[n.id].(aux := Black)]
    requires path[0].sib.id < |n1| && n2 == n1[path[0].sib.id := n1[path[0].sib.id].(aux := Red)]
    ensures var d, w := path[0].side, path[0].sib;
      var w1 := WithChild(w, d, Child(w, d).(aux := Black)).(aux := Red);
      var up := [Flip(path[0], s)] + path[1..];
      Stores(n2, root, Plug(up, w1)) && SearchTree(Plug(up, w1)) && Content(Plug(up, w1)) == content
      && w1.id == w.id && Child(w1, d).Node? && n2[NIL] == n0[NIL]
  {
    var d, w := path[0].side, path[0].sib;
    var n := Child(w, d);
    var up := [Flip(path[0], s)] + path[1..];
    FlipPlug(path, s, w);
    assert [path[0].(sib := w)] + path[1..] == path;
    var np := [FrameOf(w, d)] + up;
    assert np[0] == FrameOf(w, d) && np[1..] == up;
    assert Attach(FrameOf(w, d), n) == w;
    assert Plug(np, n) == Plug(up, w);
    PaintStores(n0, root, np, n, Black);
    var w0 := WithChild(w, d, n.(aux := Black));
    assert Attach(FrameOf(w, d), n.(aux := Black)) == w0;
    assert Plug(np, n.(aux := Black)) == Plug(up, w0);
    PaintStores(n1, root, up, w0, Red);
  }

  /**
   * Case 3 after its rotation at w away from x: the near child is x's new
   * sibling, black, with a red far child.
   */
  lemma {:induction false} RotateSiblingStep<V>(nodes: seq<Slot<Color, V>>, root: nat, path: seq<Frame<Color, V>>, s: Tree<Color, V>,
                                                content: map<int, V>)
    requires DeleteInv(path, s) && path != [] && ColorOf(s) == Black
    requires path[0].sib.Node? && path[0].sib.aux == Black
    requires ColorOf(Child(path[0].sib, Opp(path[0].side))) == Black
    requires ColorOf(Child(path[0].sib, path[0].side)) == Red
    requires var d, w := path[0].side, path[0].sib;
      var w1 := WithChild(w, d, Child(w, d).(aux := Black)).(aux := Red);
      Child(w1, d).Node? && var t := Plug([Flip(path[0], s)] + path[1..], Rotate(w1, Opp(d)));
      Stores(nodes, root, t) && SearchTree(t) && Content(t) == content
    requires s.Leaf? ==> nodes[NIL].parent == path[0].id
    ensures var d, w := path[0].side, path[0].sib;
      var w1 := WithChild(w, d, Child(w, d).(aux := Black)).(aux := Red);
      Child(w1, d).Node? &&
      var w2 := Rotate(w1, Opp(d));
      var path' := [path[0].(sib := w2)] + path[1..];
      Removed(nodes, root, Plug(path', s), IdOf(s), path', s, Black, content)
      && w2.Node? && w2.aux == Black && ColorOf(Child(w2, Opp(d))) == Red
  {
    var d, w := path[0].side, path[0].sib;
    var w1 := WithChild(w, d, Child(w, d).(aux := Black)).(aux := Red);
    var w2 := Rotate(w1, Opp(d));
    FlipPlug(path, s, w2);
    DeleteRotateSibling(path, s);
    RemovedFrom(nodes, root, [path[0].(sib := w2)] + path[1..], s, content);
  }

  // ------------------------------------------------------------------ case 4

  /** Case 4's first two writes: w takes the parent's colour and the parent turns black. */
  lemma {:induction false} ParentPaint<V>(n0: seq<Slot<Color, V>>, n1: seq<Slot<Color, V>>, n2: seq<Slot<Color, V>>,
                                          root: nat, path: seq<Frame<Color, V>>, s: Tree<Color, V>)
    requires Stores(n0, root, Plug(path, s)) && path != [] && path[0].sib.Node?
    requires path[0].sib.id < |n0| && n1 == n0[path[0].sib.id := n0[path[0].sib.id].(aux := path[0].aux)]
    requires path[0].id < |n1| && n2 == n1[path[0].id := n1[path[0].id].(aux := Black)]
    ensures var p := [path[0].(aux := Black, sib := path[0].sib.(aux := path[0].aux))] + path[1..];
      Stores(n2, root, Plug(p, s)) && Content(Plug(p, s)) == Content(Plug(path, s)) && Keys(Plug(p, s)) == Keys(Plug(path, s))
  {
    var w := path[0].sib;
    var up := [Flip(path[0], s)] + path[1..];
    FlipPlug(path, s, w);
    assert [path[0].(sib := w)] + path[1..] == path;
    PaintStores(n0, root, up, w, path[0].aux);
    var wa := w.(aux := path[0].aux);
    FlipPlug(path, s, wa);
    var q := path[0].(sib := wa);
    assert ([q] + path[1..])[1..] == path[1..];
    assert Plug([q] + path[1..], s) == Plug(path[1..], Attach(q, s));
    PaintStores(n1, root, path[1..], Attach(q, s), Black);
    var q' := path[0].(aux := Black, sib := wa);
    assert Attach(q, s).(aux := Black) == Attach(q', s);
    assert ([q'] + path[1..])[1..] == path[1..];
    assert Plug([q'] + path[1..], s) == Plug(path[1..], Attach(q', s));
  }

  /** Case 4's last write: the sibling's far child turns black. */
  lemma {:induction false} FarChildPaint<V>(n0: seq<Slot<Color, V>>, n1: seq<Slot<Color, V>>,
                                            root: nat, path: seq<Frame<Color, V>>, s: Tree<Color, V>)
    requires Stores(n0, root, Plug(path, s)) && path != [] && path[0].sib.Node? && Child(path[0].sib, Opp(path[0].side)).Node?
    requires var f := Child(path[0].sib, Opp(path[0].side));
      f.id < |n0| && n1 == n0[f.id := n0[f.id].(aux := Black)]
    ensures var d, w := path[0].side, path[0].sib;
      var u := Attach(path[0].(sib := WithChild(w, Opp(d), Child(w, Opp(d)).(aux := Black))), s);
      Stores(n1, root, Plug(path[1..], u)) && Content(Plug(path[1..], u)) == Content(Plug(path, s))
      && Keys(Plug(path[1..], u)) == Keys(Plug(path, s))
  {
    var d, w := path[0].side, path[0].sib;
    var f := Child(w, Opp(d));
    var up := [Flip(path[0], s)] + path[1..];
    FlipPlug(path, s, w);
    assert [path[0].(sib := w)] + path[1..] == path;
    var fp := [FrameOf(w, Opp(d))] + up;
    assert fp[0] == FrameOf(w, Opp(d)) && fp[1..] == up;
    assert Attach(FrameOf(w, Opp(d)), f) == w;
    assert Plug(fp, f) == Plug(up, w);
    PaintStores(n0, root, fp, f, Black);
    var w1 := WithChild(w, Opp(d), f.(aux := Black));
    assert Attach(FrameOf(w, Opp(d)), f.(aux := Black)) == w1;
    assert Plug(fp, f.(aux := Black)) == Plug(up, w1);
    FlipPlug(path, s, w1);
    var q := path[0].(sib := w1);
    assert ([q] + path[1..])[1..] == path[1..];
    assert Plug([q] + path[1..], s) == Plug(path[1..], Attach(q, s));
  }

  /** Case 4 before its rotation: w takes the parent's colour, the parent and w's far child turn black. */
  lemma {:induction false} FarPaint<V>(n0: seq<Slot<Color, V>>, n1: seq<Slot<Color, V>>, n2: seq<Slot<Color, V>>, n3: seq<Slot<Color, V>>,
                                       root: nat, path: seq<Frame<Color, V>>, s: Tree<Color, V>, content: map<int, V>)
    requires Removed(n0, root, Plug(path, s), IdOf(s), path, s, Black, content) && path != []
    requires path[0].sib.Node? && Child(path[0].sib, Opp(path[0].side)).Node?
    requires path[0].sib.id < |n0| && path[0].id < |n0| && n0[path[0].id].aux == path[0].aux
    requires n1 == n0[path[0].sib.id := n0[path[0].sib.id].(aux := n0[path[0].id].aux)]
    requires path[0].id < |n1| && n2 == n1[path[0].id := n1[path[0].id].(aux := Black)]
    requires var f := Child(path[0].sib, Opp(path[0].side));
      f.id < |n2| && n3 == n2[f.id := n2[f.id].(aux := Black)]
    ensures var d, w := path[0].side, path[0].sib;
      var w1 := WithChild(w.(aux := path[0].aux), Opp(d), Child(w, Opp(d)).(aux := Black));
      var u := Attach(path[0].(aux := Black, sib := w1), s);
      Stores(n3, root, Plug(path[1..], u)) && SearchTree(Plug(path[1..], u)) && Content(Plug(path[1..], u)) == content
      && u.id == path[0].id && Child(u, Opp(d)).Node?
  {
    ParentPaint(n0, n1, n2, root, path, s);
    var p := [path[0].(aux := Black, sib := path[0].sib.(aux := path[0].aux))] + path[1..];
    assert p[0].sib.Node? && p[1..] == path[1..] && p[0].side == path[0].side;
    FarChildPaint(n2, n3, root, p, s);
  }

  /** Case 4 after its rotation at the parent towards x: the whole tree is a red-black tree once its root is black. */
  lemma {:induction false} RotateParentStep<V>(nodes: seq<Slot<Color, V>>, root: nat, path: seq<Frame<Color, V>>, s: Tree<Color, V>,
                                               content: map<int, V>)
    requires DeleteInv(path, s) && path != [] && ColorOf(s) == Black
    requires path[0].sib.Node? && path[0].sib.aux == Black
    requires ColorOf(Child(path[0].sib, Opp(path[0].side))) == Red
    requires var d, w := path[0].side, path[0].sib;
      var w1 := WithChild(w.(aux := path[0].aux), Opp(d), Child(w, Opp(d)).(aux := Black));
      var u := Attach(path[0].(aux := Black, sib := w1), s);
      Child(u, Opp(d)).Node? && var t := Plug(path[1..], Rotate(u, d));
      Stores(nodes, root, t) && SearchTree(t) && Content(t) == content
    ensures var d, w := path[0].side, path[0].sib;
      var w1 := WithChild(w.(aux := path[0].aux), Opp(d), Child(w, Opp(d)).(aux := Black));
      var u := Attach(path[0].(aux := Black, sib := w1), s);
      Child(u, Opp(d)).Node? && var t := Plug(path[1..], Rotate(u, d));
      Removed(nodes, root, t, root, [], t, Black, content)
  {
    var d, w := path[0].side, path[0].sib;
    var w1 := WithChild(w.(aux := path[0].aux), Opp(d), Child(w, Opp(d)).(aux := Black));
    var u := Attach(path[0].(aux := Black, sib := w1), s);
    var t := Plug(path[1..], Rotate(u, d));
    DeleteRotateParent(path, s);
    if path[1..] != [] {
      PlugRoot(path[1..], Rotate(u, d), Rotate(u, d));
    }
    assert t.Node?;
    RemovedFrom(nodes, root, [], t, content);
  }
}
