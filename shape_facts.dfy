/**
 * Facts about shapes, paths and the arena relation that every container's
 * proofs use: how a plugged tree decomposes, which arena writes leave the
 * relation intact, and that rotations keep the in-order sequence.
 */
module ShapeFacts {
  import opened Shapes

  // ------------------------------------------------------------ plugging

  lemma {:induction false} IdsPlug<A, V>(path: seq<Frame<A, V>>, s: Tree<A, V>)
    ensures Ids(Plug(path, s)) == PathIds(path) + Ids(s)
    decreases |path|
  {
    if path != [] {
      IdsPlug(path[1..], Attach(path[0], s));
    }
  }

  lemma {:induction false} WfPlug<A, V>(path: seq<Frame<A, V>>, s: Tree<A, V>)
    ensures Wf(Plug(path, s)) <==> WfPath(path) && Wf(s) && Ids(s) !! PathIds(path)
    decreases |path|
  {
    if path != [] {
      WfPlug(path[1..], Attach(path[0], s));
    }
  }

  lemma {:induction false} ReprPlug<A, V>(nodes: seq<Slot<A, V>>, path: seq<Frame<A, V>>, s: Tree<A, V>)
    ensures Repr(nodes, Plug(path, s), NIL) <==> ReprPath(nodes, path, IdOf(s)) && Repr(nodes, s, ParentId(path))
    decreases |path|
  {
    if path != [] {
      ReprPlug(nodes, path[1..], Attach(path[0], s));
    }
  }

  lemma {:induction false} KeysPlug<A, V>(path: seq<Frame<A, V>>, s: Tree<A, V>)
    ensures Keys(Plug(path, s)) == Before(path) + Keys(s) + After(path)
    decreases |path|
  {
    if path != [] {
      KeysPlug(path[1..], Attach(path[0], s));
    }
  }

  lemma {:induction false} InorderPlug<A, V>(path: seq<Frame<A, V>>, s: Tree<A, V>)
    ensures Inorder(Plug(path, s)) == InorderBefore(path) + Inorder(s) + InorderAfter(path)
    decreases |path|
  {
    if path != [] {
      InorderPlug(path[1..], Attach(path[0], s));
    }
  }

  lemma MapAssoc<V>(a: map<int, V>, b: map<int, V>, c: map<int, V>)
    ensures a + b + c == a + (b + c)
  {
    assert forall k :: k in a + b + c <==> k in a + (b + c);
    assert forall k :: k in a + b + c ==> (a + b + c)[k] == (a + (b + c))[k];
  }

  lemma {:induction false} ContentPlug<A, V>(path: seq<Frame<A, V>>, s: Tree<A, V>)
    ensures Content(Plug(path, s)) == ContentBefore(path) + Content(s) + ContentAfter(path)
    decreases |path|
  {
    if path != [] {
      var f := path[0];
      ContentPlug(path[1..], Attach(f, s));
      var b, a := ContentBefore(path[1..]), ContentAfter(path[1..]);
      var m := map[f.key := f.value];
      if f.side == L {
        MapAssoc(Content(s), m, Content(f.sib));
        MapAssoc(b, Content(s), m + Content(f.sib));
        MapAssoc(b + Content(s), m + Content(f.sib), a);
        MapAssoc(m, Content(f.sib), a);
        MapAssoc(Content(s), m + Content(f.sib), a);
        MapAssoc(b, Content(s), m + Content(f.sib) + a);
      } else {
        MapAssoc(b, Content(f.sib) + m, Content(s));
        MapAssoc(b, Content(f.sib), m);
      }
    }
  }

  /** The keys of the content are the keys of the tree. */
  lemma {:induction false} KeysContent<A, V>(t: Tree<A, V>)
    ensures forall k :: k in Keys(t) <==> k in Content(t)
  {
    if t.Node? {
      KeysContent(t.left);
      KeysContent(t.right);
    }
  }

  /** Above a leftmost cursor nothing comes before it. */
  lemma {:induction false} AllLeftBefore<A, V>(path: seq<Frame<A, V>>)
    requires AllLeft(path)
    ensures Before(path) == [] && ContentBefore(path) == map[] && InorderBefore(path) == []
    decreases |path|
  {
    if path != [] {
      AllLeftBefore(path[1..]);
    }
  }

  /** Replacing the cursor's subtree by one with the same keys keeps the tree's keys. */
  lemma {:induction false} PlugSameKeys<A, V>(path: seq<Frame<A, V>>, s: Tree<A, V>, s': Tree<A, V>)
    requires Keys(s') == Keys(s)
    ensures Keys(Plug(path, s')) == Keys(Plug(path, s))
  {
    KeysPlug(path, s);
    KeysPlug(path, s');
  }

  /** A subtree of a search tree is a search tree. */
  lemma {:induction false} PlugSearchTree<A, V>(path: seq<Frame<A, V>>, s: Tree<A, V>)
    requires SearchTree(Plug(path, s))
    ensures SearchTree(s)
  {
    KeysPlug(path, s);
    var a, b, c := Before(path), Keys(s), After(path);
    IncreasingParts(a + b, c);
    IncreasingParts(a, b);
  }

  // -------------------------------------------------------- arena bounds

  lemma {:induction false} ReprBounds<A, V>(nodes: seq<Slot<A, V>>, t: Tree<A, V>, p: nat)
    requires Repr(nodes, t, p)
    ensures forall i :: i in Ids(t) ==> i < |nodes|
  {
    if t.Node? {
      ReprBounds(nodes, t.left, t.id);
      ReprBounds(nodes, t.right, t.id);
    }
  }

  lemma {:induction false} ReprPathBounds<A, V>(nodes: seq<Slot<A, V>>, path: seq<Frame<A, V>>, c: nat)
    requires ReprPath(nodes, path, c)
    ensures forall i :: i in PathIds(path) ==> i < |nodes|
    decreases |path|
  {
    if path != [] {
      ReprBounds(nodes, path[0].sib, path[0].id);
      ReprPathBounds(nodes, path[1..], path[0].id);
    }
  }

  lemma {:induction false} WfNonNil<A, V>(t: Tree<A, V>)
    requires Wf(t)
    ensures NIL !in Ids(t)
  {
    if t.Node? {
      WfNonNil(t.left);
      WfNonNil(t.right);
    }
  }

  // ------------------------------------------------------------- framing

  /** Writes outside a subtree's slots do not disturb it. */
  lemma {:induction false} ReprFrame<A, V>(nodes: seq<Slot<A, V>>, nodes': seq<Slot<A, V>>, t: Tree<A, V>, p: nat)
    requires Repr(nodes, t, p)
    requires forall i :: i in Ids(t) ==> i < |nodes| && i < |nodes'| && nodes'[i] == nodes[i]
    ensures Repr(nodes', t, p)
  {
    if t.Node? {
      ReprFrame(nodes, nodes', t.left, t.id);
      ReprFrame(nodes, nodes', t.right, t.id);
    }
  }

  lemma {:induction false} ReprPathFrame<A, V>(nodes: seq<Slot<A, V>>, nodes': seq<Slot<A, V>>, path: seq<Frame<A, V>>, c: nat)
    requires ReprPath(nodes, path, c)
    requires forall i :: i in PathIds(path) ==> i < |nodes| && i < |nodes'| && nodes'[i] == nodes[i]
    ensures ReprPath(nodes', path, c)
    decreases |path|
  {
    if path != [] {
      ReprFrame(nodes, nodes', path[0].sib, path[0].id);
      ReprPathFrame(nodes, nodes', path[1..], path[0].id);
    }
  }

  /** Pointing the parent's child link at a new cursor keeps the rest of the path. */
  lemma {:induction false} ReprPathRelink<A, V>(nodes: seq<Slot<A, V>>, nodes': seq<Slot<A, V>>, path: seq<Frame<A, V>>, c: nat, c': nat)
    requires ReprPath(nodes, path, c) && WfPath(path) && path != []
    requires path[0].id < |nodes'| && nodes'[path[0].id] == Relink(nodes[path[0].id], path[0].side, c')
    requires forall i :: i in PathIds(path) && i != path[0].id ==> i < |nodes| && i < |nodes'| && nodes'[i] == nodes[i]
    ensures ReprPath(nodes', path, c')
  {
    ReprFrame(nodes, nodes', path[0].sib, path[0].id);
    ReprPathFrame(nodes, nodes', path[1..], path[0].id);
  }

  /** Changing only the root's parent link re-hangs a subtree under a new parent. */
  lemma {:induction false} ReprReparent<A, V>(nodes: seq<Slot<A, V>>, nodes': seq<Slot<A, V>>, t: Tree<A, V>, p: nat, p': nat)
    requires Repr(nodes, t, p) && Wf(t) && t.Node?
    requires t.id < |nodes'| && nodes'[t.id] == nodes[t.id].(parent := p')
    requires forall i :: i in Ids(t) && i != t.id ==> i < |nodes| && i < |nodes'| && nodes'[i] == nodes[i]
    ensures Repr(nodes', t, p')
  {
    ReprBounds(nodes, t, p);
    assert Ids(t) == Ids(t.left) + {t.id} + Ids(t.right);
    ReprFrame(nodes, nodes', t.left, t.id);
    ReprFrame(nodes, nodes', t.right, t.id);
  }

  /** A parent-link write to a slot outside the tree, or to a subtree's root, in one statement. */
  lemma {:induction false} ReprHang<A, V>(nodes: seq<Slot<A, V>>, t: Tree<A, V>, p: nat, p': nat)
    requires Repr(nodes, t, p) && Wf(t) && t.Node?
    ensures Repr(nodes[t.id := nodes[t.id].(parent := p')], t, p')
  {
    ReprBounds(nodes, t, p);
    ReprReparent(nodes, nodes[t.id := nodes[t.id].(parent := p')], t, p, p');
  }

  // ----------------------------------------------------------- rotations

  lemma {:induction false} RotateLeftShape<A, V>(t: Tree<A, V>)
    requires t.Node? && t.right.Node?
    ensures Keys(RotateLeft(t)) == Keys(t)
    ensures Inorder(RotateLeft(t)) == Inorder(t)
    ensures Ids(RotateLeft(t)) == Ids(t)
    ensures Content(RotateLeft(t)) == Content(t)
    ensures Wf(t) ==> Wf(RotateLeft(t))
  {
    var a, y, b, c := t.left, t.right, t.right.left, t.right.right;
    var x' := Node(a, t.id, t.key, t.value, t.aux, b);
    assert RotateLeft(t) == Node(x', y.id, y.key, y.value, y.aux, c);
    assert Keys(t) == Keys(a) + [t.key] + (Keys(b) + [y.key] + Keys(c));
    assert Keys(RotateLeft(t)) == (Keys(a) + [t.key] + Keys(b)) + [y.key] + Keys(c);
    assert Inorder(t) == Inorder(a) + [t.id] + (Inorder(b) + [y.id] + Inorder(c));
    assert Inorder(RotateLeft(t)) == (Inorder(a) + [t.id] + Inorder(b)) + [y.id] + Inorder(c);
    assert Ids(t) == Ids(a) + {t.id} + (Ids(b) + {y.id} + Ids(c));
    assert Ids(RotateLeft(t)) == (Ids(a) + {t.id} + Ids(b)) + {y.id} + Ids(c);
    var mx, my := map[t.key := t.value], map[y.key := y.value];
    MapAssoc(Content(a) + mx, Content(b), my);
    MapAssoc(Content(a) + mx, Content(b) + my, Content(c));
    MapAssoc(Content(a), mx, Content(b) + my + Content(c));
    if Wf(t) {
      assert Wf(y) && t.id !in Ids(y);
      assert Wf(x');
    }
  }

  lemma {:induction false} RotateRightShape<A, V>(t: Tree<A, V>)
    requires t.Node? && t.left.Node?
    ensures Keys(RotateRight(t)) == Keys(t)
    ensures Inorder(RotateRight(t)) == Inorder(t)
    ensures Ids(RotateRight(t)) == Ids(t)
    ensures Content(RotateRight(t)) == Content(t)
    ensures Wf(t) ==> Wf(RotateRight(t))
  {
    var a, y, b, c := t.left.left, t.left, t.left.right, t.right;
    var x' := Node(b, t.id, t.key, t.value, t.aux, c);
    assert RotateRight(t) == Node(a, y.id, y.key, y.value, y.aux, x');
    assert Keys(t) == (Keys(a) + [y.key] + Keys(b)) + [t.key] + Keys(c);
    assert Keys(RotateRight(t)) == Keys(a) + [y.key] + (Keys(b) + [t.key] + Keys(c));
    assert Inorder(t) == (Inorder(a) + [y.id] + Inorder(b)) + [t.id] + Inorder(c);
    assert Inorder(RotateRight(t)) == Inorder(a) + [y.id] + (Inorder(b) + [t.id] + Inorder(c));
    assert Ids(t) == (Ids(a) + {y.id} + Ids(b)) + {t.id} + Ids(c);
    assert Ids(RotateRight(t)) == Ids(a) + {y.id} + (Ids(b) + {t.id} + Ids(c));
    var mx, my := map[t.key := t.value], map[y.key := y.value];
    MapAssoc(Content(a) + my, Content(b), mx);
    MapAssoc(Content(a) + my, Content(b) + mx, Content(c));
    MapAssoc(Content(a), my, Content(b) + mx + Content(c));
    if Wf(t) {
      assert Wf(y) && t.id !in Ids(y);
      assert Wf(x');
    }
  }

  lemma {:induction false} WfPathNonNil<A, V>(path: seq<Frame<A, V>>)
    requires WfPath(path)
    ensures NIL !in PathIds(path)
    decreases |path|
  {
    if path != [] {
      WfNonNil(path[0].sib);
      WfPathNonNil(path[1..]);
    }
  }

  /** The local part of LeftRotateRepr: the rotated subtree is stored, hanging from `pp`. */
  lemma {:induction false} LeftRotateLocal<A, V>(nodes0: seq<Slot<A, V>>, nodes: seq<Slot<A, V>>, s: Tree<A, V>, pp: nat)
    requires s.Node? && s.right.Node? && Wf(s) && Repr(nodes0, s, pp)
    requires |nodes| == |nodes0| && s.id < |nodes| && s.right.id < |nodes| && IdOf(s.right.left) < |nodes|
    requires nodes[s.id] == nodes0[s.id].(right := IdOf(s.right.left), parent := s.right.id)
    requires nodes[s.right.id] == nodes0[s.right.id].(left := s.id, parent := pp)
    requires s.right.left.Node? ==> nodes[s.right.left.id] == nodes0[s.right.left.id].(parent := s.id)
    requires forall i :: i in Ids(s) && i < |nodes| && i != s.id && i != s.right.id && i != IdOf(s.right.left) ==> nodes[i] == nodes0[i]
    ensures Repr(nodes, RotateLeft(s), pp)
  {
    var x, y := s.id, s.right.id;
    var a, b, c := s.left, s.right.left, s.right.right;
    ReprBounds(nodes0, s, pp);
    WfNonNil(s);
    assert Wf(s.right);
    assert Ids(s) == Ids(a) + {x} + Ids(s.right);
    assert Ids(s.right) == Ids(b) + {y} + Ids(c);
    ReprFrame(nodes0, nodes, a, x);
    ReprFrame(nodes0, nodes, c, y);
    if b.Node? {
      ReprReparent(nodes0, nodes, b, y, x);
    }
    assert Repr(nodes, Node(a, x, s.key, s.value, s.aux, b), y);
  }

  /** The local part of RightRotateRepr. */
  lemma {:induction false} RightRotateLocal<A, V>(nodes0: seq<Slot<A, V>>, nodes: seq<Slot<A, V>>, s: Tree<A, V>, pp: nat)
    requires s.Node? && s.left.Node? && Wf(s) && Repr(nodes0, s, pp)
    requires |nodes| == |nodes0| && s.id < |nodes| && s.left.id < |nodes| && IdOf(s.left.right) < |nodes|
    requires nodes[s.id] == nodes0[s.id].(left := IdOf(s.left.right), parent := s.left.id)
    requires nodes[s.left.id] == nodes0[s.left.id].(right := s.id, parent := pp)
    requires s.left.right.Node? ==> nodes[s.left.right.id] == nodes0[s.left.right.id].(parent := s.id)
    requires forall i :: i in Ids(s) && i < |nodes| && i != s.id && i != s.left.id && i != IdOf(s.left.right) ==> nodes[i] == nodes0[i]
    ensures Repr(nodes, RotateRight(s), pp)
  {
    var x, y := s.id, s.left.id;
    var a, b, c := s.left.left, s.left.right, s.right;
    ReprBounds(nodes0, s, pp);
    WfNonNil(s);
    assert Wf(s.left);
    assert Ids(s) == Ids(s.left) + {x} + Ids(c);
    assert Ids(s.left) == Ids(a) + {y} + Ids(b);
    ReprFrame(nodes0, nodes, a, y);
    ReprFrame(nodes0, nodes, c, x);
    if b.Node? {
      ReprReparent(nodes0, nodes, b, y, x);
    }
    assert Repr(nodes, Node(b, x, s.key, s.value, s.aux, c), y);
  }

  /** The arena `nodes` differs from `nodes0` at most in the slots `w`. */
  ghost predicate Untouched<A, V>(nodes0: seq<Slot<A, V>>, nodes: seq<Slot<A, V>>, w: set<nat>)
  {
    |nodes| == |nodes0| && forall i :: 0 <= i < |nodes| && i !in w ==> nodes[i] == nodes0[i]
  }

  /**
   * The writes of leftRotate(x), one arena version per statement: `y` is x's
   * right child, `b` is y's left child and `p` is x's parent. The result
   * differs from `n0` only in the slots of x, y, b and p.
   */
  lemma LeftRotateWrites<A, V>(n0: seq<Slot<A, V>>, n1: seq<Slot<A, V>>, n2: seq<Slot<A, V>>, n3: seq<Slot<A, V>>,
                               n4: seq<Slot<A, V>>, n5: seq<Slot<A, V>>, n6: seq<Slot<A, V>>,
                               x: nat, y: nat, b: nat, p: nat)
    requires x < |n0| && y < |n0| && b < |n0| && p < |n0|
    requires x != y && x != NIL && y != NIL && b != x && b != y
    requires p != NIL ==> p != x && p != y && p != b
    requires n1 == n0[x := n0[x].(right := b)]
    requires b != NIL ==> n2 == n1[b := n1[b].(parent := x)]
    requires b == NIL ==> n2 == n1
    requires n3 == n2[y := n2[y].(parent := p)]
    requires p == NIL ==> n4 == n3
    requires p != NIL && x == n3[p].left ==> n4 == n3[p := n3[p].(left := y)]
    requires p != NIL && x != n3[p].left ==> n4 == n3[p := n3[p].(right := y)]
    requires n5 == n4[y := n4[y].(left := x)]
    requires n6 == n5[x := n5[x].(parent := y)]
    ensures |n6| == |n0| && n6[NIL] == n0[NIL]
    ensures n6[x] == n0[x].(right := b, parent := y)
    ensures n6[y] == n0[y].(left := x, parent := p)
    ensures b != NIL ==> n6[b] == n0[b].(parent := x)
    ensures p != NIL && x == n0[p].left ==> n6[p] == n0[p].(left := y)
    ensures p != NIL && x != n0[p].left ==> n6[p] == n0[p].(right := y)
    ensures Untouched(n0, n6, {x, y, b, p})
  {
  }

  /** The writes of rightRotate(x): the mirror image of LeftRotateWrites. */
  lemma RightRotateWrites<A, V>(n0: seq<Slot<A, V>>, n1: seq<Slot<A, V>>, n2: seq<Slot<A, V>>, n3: seq<Slot<A, V>>,
                                n4: seq<Slot<A, V>>, n5: seq<Slot<A, V>>, n6: seq<Slot<A, V>>,
                                x: nat, y: nat, b: nat, p: nat)
    requires x < |n0| && y < |n0| && b < |n0| && p < |n0|
    requires x != y && x != NIL && y != NIL && b != x && b != y
    requires p != NIL ==> p != x && p != y && p != b
    requires n1 == n0[x := n0[x].(left := b)]
    requires b != NIL ==> n2 == n1[b := n1[b].(parent := x)]
    requires b == NIL ==> n2 == n1
    requires n3 == n2[y := n2[y].(parent := p)]
    requires p == NIL ==> n4 == n3
    requires p != NIL && x == n3[p].right ==> n4 == n3[p := n3[p].(right := y)]
    requires p != NIL && x != n3[p].right ==> n4 == n3[p := n3[p].(left := y)]
    requires n5 == n4[y := n4[y].(right := x)]
    requires n6 == n5[x := n5[x].(parent := y)]
    ensures |n6| == |n0| && n6[NIL] == n0[NIL]
    ensures n6[x] == n0[x].(left := b, parent := y)
    ensures n6[y] == n0[y].(right := x, parent := p)
    ensures b != NIL ==> n6[b] == n0[b].(parent := x)
    ensures p != NIL && x == n0[p].right ==> n6[p] == n0[p].(right := y)
    ensures p != NIL && x != n0[p].right ==> n6[p] == n0[p].(left := y)
    ensures Untouched(n0, n6, {x, y, b, p})
  {
  }

  /**
   * The arena after the statements of leftRotate(x) stores the rotated tree:
   * x's slot now links its old left subtree and y's old left subtree b, y's
   * slot links x and y's old right subtree and inherits x's parent, b's root
   * (when b is not empty) points back to x, and the parent's child link (when
   * x was not the root) points to y. Nothing else changed.
   */
  lemma {:induction false} LeftRotateRepr<A, V>(nodes0: seq<Slot<A, V>>, nodes: seq<Slot<A, V>>, path: seq<Frame<A, V>>, s: Tree<A, V>)
    requires s.Node? && s.right.Node?
    requires Wf(Plug(path, s)) && Repr(nodes0, Plug(path, s), NIL)
    requires |nodes| == |nodes0|
    requires s.id < |nodes| && s.right.id < |nodes| && IdOf(s.right.left) < |nodes| && ParentId(path) < |nodes|
    requires nodes[s.id] == nodes0[s.id].(right := IdOf(s.right.left), parent := s.right.id)
    requires nodes[s.right.id] == nodes0[s.right.id].(left := s.id, parent := ParentId(path))
    requires s.right.left.Node? ==> nodes[s.right.left.id] == nodes0[s.right.left.id].(parent := s.id)
    requires path != [] ==> nodes[path[0].id] == Relink(nodes0[path[0].id], path[0].side, s.right.id)
    requires Untouched(nodes0, nodes, {s.id, s.right.id, IdOf(s.right.left), ParentId(path)})
    ensures Wf(Plug(path, RotateLeft(s))) && Repr(nodes, Plug(path, RotateLeft(s)), NIL)
  {
    WfPlug(path, s);
    IdsPlug(path, s);
    ReprPlug(nodes0, path, s);
    ReprBounds(nodes0, s, ParentId(path));
    ReprPathBounds(nodes0, path, s.id);
    RotateLeftShape(s);
    WfPlug(path, RotateLeft(s));
    WfNonNil(s);
    WfPathNonNil(path);
    assert path != [] ==> path[0].id in PathIds(path);
    assert Ids(s) == Ids(s.left) + {s.id} + Ids(s.right);
    assert Ids(s.right) == Ids(s.right.left) + {s.right.id} + Ids(s.right.right);
    LeftRotateLocal(nodes0, nodes, s, ParentId(path));
    if path != [] {
      ReprPathRelink(nodes0, nodes, path, s.id, s.right.id);
    }
    ReprPlug(nodes, path, RotateLeft(s));
  }

  /** The mirror image of LeftRotateRepr, for the statements of rightRotate(x). */
  lemma {:induction false} RightRotateRepr<A, V>(nodes0: seq<Slot<A, V>>, nodes: seq<Slot<A, V>>, path: seq<Frame<A, V>>, s: Tree<A, V>)
    requires s.Node? && s.left.Node?
    requires Wf(Plug(path, s)) && Repr(nodes0, Plug(path, s), NIL)
    requires |nodes| == |nodes0|
    requires s.id < |nodes| && s.left.id < |nodes| && IdOf(s.left.right) < |nodes| && ParentId(path) < |nodes|
    requires nodes[s.id] == nodes0[s.id].(left := IdOf(s.left.right), parent := s.left.id)
    requires nodes[s.left.id] == nodes0[s.left.id].(right := s.id, parent := ParentId(path))
    requires s.left.right.Node? ==> nodes[s.left.right.id] == nodes0[s.left.right.id].(parent := s.id)
    requires path != [] ==> nodes[path[0].id] == Relink(nodes0[path[0].id], path[0].side, s.left.id)
    requires Untouched(nodes0, nodes, {s.id, s.left.id, IdOf(s.left.right), ParentId(path)})
    ensures Wf(Plug(path, RotateRight(s))) && Repr(nodes, Plug(path, RotateRight(s)), NIL)
  {
    WfPlug(path, s);
    IdsPlug(path, s);
    ReprPlug(nodes0, path, s);
    ReprBounds(nodes0, s, ParentId(path));
    ReprPathBounds(nodes0, path, s.id);
    RotateRightShape(s);
    WfPlug(path, RotateRight(s));
    WfNonNil(s);
    WfPathNonNil(path);
    assert path != [] ==> path[0].id in PathIds(path);
    assert Ids(s) == Ids(s.left) + {s.id} + Ids(s.right);
    assert Ids(s.left) == Ids(s.left.left) + {s.left.id} + Ids(s.left.right);
    RightRotateLocal(nodes0, nodes, s, ParentId(path));
    if path != [] {
      ReprPathRelink(nodes0, nodes, path, s.id, s.left.id);
    }
    ReprPlug(nodes, path, RotateRight(s));
  }

  /**
   * The statements of leftRotate(x), one arena version per statement, turn
   * an arena storing `Plug(path, s)` (with `x` the id of `s`) into one storing
   * `Plug(path, RotateLeft(s))`: same keys and pairs, the same root unless the
   * rotation was at the root, and the sentinel slot untouched.
   */
  lemma LeftRotateStep<A, V>(n0: seq<Slot<A, V>>, n1: seq<Slot<A, V>>, n2: seq<Slot<A, V>>, n3: seq<Slot<A, V>>,
                             n4: seq<Slot<A, V>>, n5: seq<Slot<A, V>>, n6: seq<Slot<A, V>>,
                             path: seq<Frame<A, V>>, s: Tree<A, V>, x: nat, y: nat, b: nat, p: nat)
    requires Wf(Plug(path, s)) && Repr(n0, Plug(path, s), NIL) && s.Node? && s.right.Node?
    requires x == s.id && y == s.right.id && b == IdOf(s.right.left) && p == ParentId(path)
    requires x < |n0| && y < |n0| && b < |n0| && p < |n0|
    requires n1 == n0[x := n0[x].(right := b)]
    requires b != NIL ==> n2 == n1[b := n1[b].(parent := x)]
    requires b == NIL ==> n2 == n1
    requires n3 == n2[y := n2[y].(parent := p)]
    requires p == NIL ==> n4 == n3
    requires p != NIL && x == n3[p].left ==> n4 == n3[p := n3[p].(left := y)]
    requires p != NIL && x != n3[p].left ==> n4 == n3[p := n3[p].(right := y)]
    requires n5 == n4[y := n4[y].(left := x)]
    requires n6 == n5[x := n5[x].(parent := y)]
    ensures Wf(Plug(path, RotateLeft(s))) && Repr(n6, Plug(path, RotateLeft(s)), NIL)
    ensures Keys(Plug(path, RotateLeft(s))) == Keys(Plug(path, s))
    ensures Content(Plug(path, RotateLeft(s))) == Content(Plug(path, s))
    ensures IdOf(Plug(path, RotateLeft(s))) == if p == NIL then y else IdOf(Plug(path, s))
    ensures |n6| == |n0| && n6[NIL] == n0[NIL]
  {
    RotateSlots(n0, path, s, L);
    RotateIds(path, s, L);
    LeftRotateWrites(n0, n1, n2, n3, n4, n5, n6, x, y, b, p);
    LeftRotateRepr(n0, n6, path, s);
    RotateLeftShape(s);
    PlugSameContent(path, s, RotateLeft(s));
    if path != [] {
      PlugRoot(path, s, RotateLeft(s));
    }
  }

  /** The statements of rightRotate(x): the mirror image of LeftRotateStep. */
  lemma RightRotateStep<A, V>(n0: seq<Slot<A, V>>, n1: seq<Slot<A, V>>, n2: seq<Slot<A, V>>, n3: seq<Slot<A, V>>,
                              n4: seq<Slot<A, V>>, n5: seq<Slot<A, V>>, n6: seq<Slot<A, V>>,
                              path: seq<Frame<A, V>>, s: Tree<A, V>, x: nat, y: nat, b: nat, p: nat)
    requires Wf(Plug(path, s)) && Repr(n0, Plug(path, s), NIL) && s.Node? && s.left.Node?
    requires x == s.id && y == s.left.id && b == IdOf(s.left.right) && p == ParentId(path)
    requires x < |n0| && y < |n0| && b < |n0| && p < |n0|
    requires n1 == n0[x := n0[x].(left := b)]
    requires b != NIL ==> n2 == n1[b := n1[b].(parent := x)]
    requires b == NIL ==> n2 == n1
    requires n3 == n2[y := n2[y].(parent := p)]
    requires p == NIL ==> n4 == n3
    requires p != NIL && x == n3[p].right ==> n4 == n3[p := n3[p].(right := y)]
    requires p != NIL && x != n3[p].right ==> n4 == n3[p := n3[p].(left := y)]
    requires n5 == n4[y := n4[y].(right := x)]
    requires n6 == n5[x := n5[x].(parent := y)]
    ensures Wf(Plug(path, RotateRight(s))) && Repr(n6, Plug(path, RotateRight(s)), NIL)
    ensures Keys(Plug(path, RotateRight(s))) == Keys(Plug(path, s))
    ensures Content(Plug(path, RotateRight(s))) == Content(Plug(path, s))
    ensures IdOf(Plug(path, RotateRight(s))) == if p == NIL then y else IdOf(Plug(path, s))
    ensures |n6| == |n0| && n6[NIL] == n0[NIL]
  {
    RotateSlots(n0, path, s, R);
    RotateIds(path, s, R);
    RightRotateWrites(n0, n1, n2, n3, n4, n5, n6, x, y, b, p);
    RightRotateRepr(n0, n6, path, s);
    RotateRightShape(s);
    PlugSameContent(path, s, RotateRight(s));
    if path != [] {
      PlugRoot(path, s, RotateRight(s));
    }
  }

  // ------------------------------------------------------ path reshaping

  lemma {:induction false} PlugAppend<A, V>(p1: seq<Frame<A, V>>, p2: seq<Frame<A, V>>, s: Tree<A, V>)
    ensures Plug(p1 + p2, s) == Plug(p2, Plug(p1, s))
    decreases |p1|
  {
    if p1 != [] {
      assert (p1 + p2)[0] == p1[0];
      assert (p1 + p2)[1..] == p1[1..] + p2;
      PlugAppend(p1[1..], p2, Attach(p1[0], s));
    } else {
      assert p1 + p2 == p2;
    }
  }

  /** Below a non-empty path, the root node does not depend on the cursor's subtree. */
  lemma {:induction false} PlugRoot<A, V>(path: seq<Frame<A, V>>, s: Tree<A, V>, s': Tree<A, V>)
    requires path != []
    ensures Plug(path, s).Node? && Plug(path, s').Node?
    ensures Plug(path, s).id == Plug(path, s').id && Plug(path, s).aux == Plug(path, s').aux
    decreases |path|
  {
    if path[1..] != [] {
      PlugRoot(path[1..], Attach(path[0], s), Attach(path[0], s'));
    }
  }

  /** The cursor's parent node seen from the sibling's side. */
  lemma FlipPlug<A, V>(path: seq<Frame<A, V>>, s: Tree<A, V>, t: Tree<A, V>)
    requires path != []
    ensures Plug([Flip(path[0], s)] + path[1..], t) == Plug([path[0].(sib := t)] + path[1..], s)
  {
    assert ([Flip(path[0], s)] + path[1..])[1..] == path[1..];
    assert ([path[0].(sib := t)] + path[1..])[1..] == path[1..];
  }

  /** Rotating the parent of the cursor's subtree `s` so that `s` moves up one level. */
  lemma SwapUp<A, V>(path: seq<Frame<A, V>>, s: Tree<A, V>)
    requires path != [] && s.Node? && Child(s, Opp(path[0].side)) == Child(s, Opp(path[0].side))
    ensures Child(Attach(path[0], s), path[0].side).Node?
    ensures Plug([FrameOf(s, Opp(path[0].side))] + path[1..], Attach(path[0], Child(s, Opp(path[0].side))))
         == Plug(path[1..], Rotate(Attach(path[0], s), Opp(path[0].side)))
  {
    assert ([FrameOf(s, Opp(path[0].side))] + path[1..])[1..] == path[1..];
  }

  /** Rotating the cursor's parent towards the cursor: the cursor moves down one level. */
  lemma RotateDown<A, V>(path: seq<Frame<A, V>>, s: Tree<A, V>)
    requires path != [] && path[0].sib.Node?
    ensures Child(Attach(path[0], s), Opp(path[0].side)).Node?
    ensures Plug([path[0].(sib := Child(path[0].sib, path[0].side)), FrameOf(path[0].sib, path[0].side)] + path[1..], s)
         == Plug(path[1..], Rotate(Attach(path[0], s), path[0].side))
  {
    var p' := [path[0].(sib := Child(path[0].sib, path[0].side)), FrameOf(path[0].sib, path[0].side)] + path[1..];
    assert p'[1..] == [FrameOf(path[0].sib, path[0].side)] + path[1..];
    assert p'[1..][1..] == path[1..];
  }

  /** Rotating the grandparent away from a cursor on the outer side: the parent moves up. */
  lemma LiftParent<A, V>(path: seq<Frame<A, V>>, s: Tree<A, V>)
    requires |path| >= 2 && path[0].side == path[1].side
    ensures Child(Attach(path[1], Attach(path[0], s)), path[1].side).Node?
    ensures Plug([path[0].(sib := Attach(path[1], path[0].sib))] + path[2..], s)
         == Plug(path[2..], Rotate(Attach(path[1], Attach(path[0], s)), Opp(path[1].side)))
  {
    var p' := [path[0].(sib := Attach(path[1], path[0].sib))] + path[2..];
    assert p'[1..] == path[2..];
    assert path[1..][1..] == path[2..];
  }

  // ------------------------------------------------------------ contents

  lemma {:induction false} KeysContentPath<A, V>(path: seq<Frame<A, V>>)
    ensures forall k :: k in Before(path) <==> k in ContentBefore(path)
    ensures forall k :: k in After(path) <==> k in ContentAfter(path)
    decreases |path|
  {
    if path != [] {
      KeysContentPath(path[1..]);
      KeysContent(path[0].sib);
    }
  }

  /** In an increasing sequence a key occurs once. */
  lemma SingleOccurrence(a: seq<int>, k: int, b: seq<int>)
    requires Increasing(a + [k] + b)
    ensures k !in a && k !in b
  {
    var s := a + [k] + b;
    assert s[|a|] == k;
    forall i | 0 <= i < |a| ensures a[i] < k {
      assert s[i] == a[i];
    }
    forall i | 0 <= i < |b| ensures k < b[i] {
      assert s[|a| + 1 + i] == b[i];
    }
  }

  lemma MapRegroup<V>(b: map<int, V>, l: map<int, V>, m: map<int, V>, r: map<int, V>, a: map<int, V>)
    ensures b + (l + m + r) + a == (b + l) + m + (r + a)
  {
    MapAssoc(b, l + m, r);
    MapAssoc(b, l, m);
    MapAssoc((b + l) + m, r, a);
  }

  lemma MapRegroup2<V>(b: map<int, V>, l: map<int, V>, r: map<int, V>, a: map<int, V>)
    ensures b + (l + r) + a == (b + l) + (r + a)
  {
    MapAssoc(b, l, r);
    MapAssoc(b + l, r, a);
  }

  lemma MapShift<V>(m: map<int, V>, c: map<int, V>, a: map<int, V>)
    ensures map[] + (map[] + m + c) + a == m + (map[] + c + a)
  {
    var x, y := map[] + (map[] + m + c) + a, m + (map[] + c + a);
    assert forall k :: k in x <==> k in y;
    assert forall k :: k in x ==> x[k] == y[k];
  }

  lemma MapMiddle<V>(x: map<int, V>, k: int, v: V, v': V, y: map<int, V>)
    requires k !in x && k !in y
    ensures (x + map[k := v] + y)[k := v'] == x + map[k := v'] + y
    ensures (x + map[k := v] + y) - {k} == x + y
    ensures (x + y)[k := v'] == x + map[k := v'] + y
  {
    MapRewrite(x, k, v, v', y);
    MapCut(x, k, v, y);
    MapPut(x, k, v', y);
  }

  lemma MapRewrite<V>(x: map<int, V>, k: int, v: V, v': V, y: map<int, V>)
    requires k !in y
    ensures (x + map[k := v] + y)[k := v'] == x + map[k := v'] + y
  {
    var p, q := (x + map[k := v] + y)[k := v'], x + map[k := v'] + y;
    assert forall j :: j in p <==> j in q;
    assert forall j :: j in p ==> p[j] == q[j];
  }

  lemma MapCut<V>(x: map<int, V>, k: int, v: V, y: map<int, V>)
    requires k !in x && k !in y
    ensures (x + map[k := v] + y) - {k} == x + y
  {
    var p, q := (x + map[k := v] + y) - {k}, x + y;
    assert forall j :: j in p <==> j in q;
    assert forall j :: j in p ==> p[j] == q[j];
  }

  lemma MapPut<V>(x: map<int, V>, k: int, v: V, y: map<int, V>)
    requires k !in y
    ensures (x + y)[k := v] == x + map[k := v] + y
  {
    var p, q := (x + y)[k := v], x + map[k := v] + y;
    assert forall j :: j in p <==> j in q;
    assert forall j :: j in p ==> p[j] == q[j];
  }

  lemma KeysAround<A, V>(path: seq<Frame<A, V>>, s: Tree<A, V>)
    requires s.Node?
    ensures Keys(Plug(path, s)) == (Before(path) + Keys(s.left)) + [s.key] + (Keys(s.right) + After(path))
  {
    KeysPlug(path, s);
    assert Keys(s) == Keys(s.left) + [s.key] + Keys(s.right);
  }

  lemma KeysOnce(c: seq<int>, a: seq<int>, k: int, b: seq<int>)
    requires c == a + [k] + b && Increasing(c)
    ensures k !in a && k !in b
  {
    SingleOccurrence(a, k, b);
  }

  /** The cursor's key occurs nowhere else in a search tree. */
  lemma CursorKeyOnce<A, V>(path: seq<Frame<A, V>>, s: Tree<A, V>)
    requires SearchTree(Plug(path, s)) && s.Node?
    ensures s.key !in ContentBefore(path) + Content(s.left)
    ensures s.key !in Content(s.right) + ContentAfter(path)
  {
    KeysAround(path, s);
    KeysOnce(Keys(Plug(path, s)), Before(path) + Keys(s.left), s.key, Keys(s.right) + After(path));
    KeysContentPath(path);
    KeysContent(s.left);
    KeysContent(s.right);
  }

  /** Where the cursor's entry sits in the whole tree's content. */
  lemma ContentAround<A, V>(path: seq<Frame<A, V>>, s: Tree<A, V>)
    requires s.Node?
    ensures Content(Plug(path, s))
         == (ContentBefore(path) + Content(s.left)) + map[s.key := s.value] + (Content(s.right) + ContentAfter(path))
  {
    ContentPlug(path, s);
    MapRegroup(ContentBefore(path), Content(s.left), map[s.key := s.value], Content(s.right), ContentAfter(path));
  }

  /** Giving the cursor's node a new value replaces that key's entry. */
  lemma ContentRevalue<A, V>(path: seq<Frame<A, V>>, s: Tree<A, V>, v: V)
    requires SearchTree(Plug(path, s)) && s.Node?
    ensures Content(Plug(path, s.(value := v))) == Content(Plug(path, s))[s.key := v]
    ensures Keys(Plug(path, s.(value := v))) == Keys(Plug(path, s))
  {
    CursorKeyOnce(path, s);
    ContentAround(path, s);
    ContentAround(path, s.(value := v));
    MapMiddle(ContentBefore(path) + Content(s.left), s.key, s.value, v, Content(s.right) + ContentAfter(path));
    PlugSameKeys(path, s, s.(value := v));
  }

  lemma KeysAtLeaf<A, V>(path: seq<Frame<A, V>>, n: Tree<A, V>)
    requires n.Node? && n.left.Leaf? && n.right.Leaf?
    ensures Keys(Plug(path, Leaf)) == Before(path) + After(path)
    ensures Keys(Plug(path, n)) == Before(path) + [n.key] + After(path)
  {
    KeysPlug(path, Leaf);
    KeysPlug(path, n);
    assert Keys(n) == [n.key];
  }

  lemma ContentAtLeaf<A, V>(path: seq<Frame<A, V>>, n: Tree<A, V>)
    requires n.Node? && n.left.Leaf? && n.right.Leaf?
    ensures Content(Plug(path, Leaf)) == ContentBefore(path) + ContentAfter(path)
    ensures Content(Plug(path, n)) == ContentBefore(path) + map[n.key := n.value] + ContentAfter(path)
  {
    ContentPlug(path, Leaf);
    ContentPlug(path, n);
    assert Content(n) == map[n.key := n.value];
    assert ContentBefore(path) + map[] == ContentBefore(path);
  }

  /** A new node at the empty position a search for its key ended in adds one entry, in order. */
  lemma ContentInsert<A, V>(path: seq<Frame<A, V>>, n: Tree<A, V>)
    requires n.Node? && n.left.Leaf? && n.right.Leaf?
    requires SearchTree(Plug(path, Leaf)) && Between(Before(path), n.key, After(path))
    ensures Content(Plug(path, n)) == Content(Plug(path, Leaf))[n.key := n.value]
    ensures SearchTree(Plug(path, n))
  {
    ContentAtLeaf(path, n);
    KeysContentPath(path);
    assert n.key !in After(path);
    assert n.key !in Before(path);
    MapMiddle(ContentBefore(path), n.key, n.value, n.value, ContentAfter(path));
    KeysAtLeaf(path, n);
    IncreasingInsert(Before(path), n.key, After(path));
  }

  lemma RemoveOrder(a: seq<int>, k: int, b: seq<int>)
    requires Increasing(a + [k] + b)
    ensures Increasing(a + b)
  {
    IncreasingParts(a + [k], b);
    IncreasingParts(a, [k]);
    assert forall i, j :: 0 <= i < |a| && 0 <= j < |b| ==> a[i] < (a + [k])[|a|] < b[j];
    IncreasingJoin(a, b);
  }

  lemma KeysReplaced<A, V>(path: seq<Frame<A, V>>, s: Tree<A, V>, s': Tree<A, V>)
    requires s.Node? && Keys(s') == Keys(s.left) + Keys(s.right)
    ensures Keys(Plug(path, s')) == (Before(path) + Keys(s.left)) + (Keys(s.right) + After(path))
  {
    KeysPlug(path, s');
  }

  lemma ContentReplaced<A, V>(path: seq<Frame<A, V>>, s: Tree<A, V>, s': Tree<A, V>)
    requires s.Node? && Content(s') == Content(s.left) + Content(s.right)
    ensures Content(Plug(path, s')) == (ContentBefore(path) + Content(s.left)) + (Content(s.right) + ContentAfter(path))
  {
    ContentPlug(path, s');
    MapRegroup2(ContentBefore(path), Content(s.left), Content(s.right), ContentAfter(path));
  }

  /** Replacing the cursor's node by a subtree holding exactly its two subtrees' entries removes its key. */
  lemma ContentRemove<A, V>(path: seq<Frame<A, V>>, s: Tree<A, V>, s': Tree<A, V>)
    requires SearchTree(Plug(path, s)) && s.Node?
    requires Keys(s') == Keys(s.left) + Keys(s.right)
    requires Content(s') == Content(s.left) + Content(s.right)
    ensures Content(Plug(path, s')) == Content(Plug(path, s)) - {s.key}
    ensures SearchTree(Plug(path, s'))
  {
    CursorKeyOnce(path, s);
    ContentAround(path, s);
    ContentReplaced(path, s, s');
    MapMiddle(ContentBefore(path) + Content(s.left), s.key, s.value, s.value, Content(s.right) + ContentAfter(path));
    KeysAround(path, s);
    KeysReplaced(path, s, s');
    RemoveOrder(Before(path) + Keys(s.left), s.key, Keys(s.right) + After(path));
  }

  /** Cutting the leftmost node out of a subtree. */
  lemma RemoveMinKeys<A, V>(py: seq<Frame<A, V>>, n: Tree<A, V>)
    requires AllLeft(py) && n.Node? && n.left.Leaf?
    ensures Keys(Plug(py, n)) == [n.key] + Keys(Plug(py, n.right))
  {
    AllLeftBefore(py);
    KeysPlug(py, n);
    KeysPlug(py, n.right);
    assert Keys(n) == [n.key] + Keys(n.right);
  }

  lemma RemoveMinContent<A, V>(py: seq<Frame<A, V>>, n: Tree<A, V>)
    requires AllLeft(py) && n.Node? && n.left.Leaf?
    ensures Content(Plug(py, n)) == map[n.key := n.value] + Content(Plug(py, n.right))
  {
    AllLeftBefore(py);
    ContentPlug(py, n);
    ContentPlug(py, n.right);
    MapShift(map[n.key := n.value], Content(n.right), ContentAfter(py));
  }

  // ------------------------------------------------------------- descent

  /** In a search tree, a node's key separates the keys of its two subtrees. */
  lemma NodeOrder<A, V>(s: Tree<A, V>)
    requires SearchTree(s) && s.Node?
    ensures forall i :: 0 <= i < |Keys(s.left)| ==> Keys(s.left)[i] < s.key
    ensures forall i :: 0 <= i < |Keys(s.right)| ==> s.key < Keys(s.right)[i]
  {
    var a, b := Keys(s.left), Keys(s.right);
    assert Keys(s) == a + [s.key] + b;
    forall i | 0 <= i < |a| ensures a[i] < s.key {
      assert Keys(s)[i] == a[i] && Keys(s)[|a|] == s.key;
    }
    forall i | 0 <= i < |b| ensures s.key < b[i] {
      assert Keys(s)[|a| + 1 + i] == b[i] && Keys(s)[|a|] == s.key;
    }
  }

  /**
   * Where a search for `key` that starts at the cursor stops: at the node
   * holding `key`, or at the empty subtree where it would hang.
   */
  function Locate<A, V>(path: seq<Frame<A, V>>, s: Tree<A, V>, key: int): (r: (seq<Frame<A, V>>, Tree<A, V>))
    ensures Plug(r.0, r.1) == Plug(path, s) && (r.1.Leaf? || r.1.key == key)
    decreases s
  {
    if s.Leaf? || s.key == key then (path, s)
    else if key > s.key then
      assert ([FrameOf(s, R)] + path)[1..] == path;
      Locate([FrameOf(s, R)] + path, s.right, key)
    else
      assert ([FrameOf(s, L)] + path)[1..] == path;
      Locate([FrameOf(s, L)] + path, s.left, key)
  }

  /**
   * In a search tree the search finds a node exactly when the key is
   * stored; otherwise the key lies between the keys before and after the
   * empty subtree it stops at.
   */
  lemma {:induction false} LocateFound<A, V>(path: seq<Frame<A, V>>, s: Tree<A, V>, key: int)
    requires SearchTree(Plug(path, s)) && Between(Before(path), key, After(path))
    ensures var r := Locate(path, s, key);
      (r.1.Node? <==> key in Content(Plug(path, s)))
      && (r.1.Node? ==> Content(Plug(path, s))[key] == r.1.value)
      && (r.1.Leaf? ==> Between(Before(r.0), key, After(r.0)))
    decreases s
  {
    var r := Locate(path, s, key);
    if s.Leaf? {
      NotBetween(path, key);
      KeysContent(Plug(path, s));
    } else if s.key == key {
      CursorValue(path, s);
    } else if key > s.key {
      Descend(path, s, key, R);
      LocateFound([FrameOf(s, R)] + path, s.right, key);
    } else {
      Descend(path, s, key, L);
      LocateFound([FrameOf(s, L)] + path, s.left, key);
    }
  }

  /** One step of a search for `key` from the cursor: the key stays between the keys left and right of it. */
  lemma Descend<A, V>(path: seq<Frame<A, V>>, s: Tree<A, V>, key: int, d: Side)
    requires SearchTree(Plug(path, s)) && s.Node? && Between(Before(path), key, After(path))
    requires d == L ==> key < s.key
    requires d == R ==> s.key < key
    ensures Between(Before([FrameOf(s, d)] + path), key, After([FrameOf(s, d)] + path))
    ensures key in Keys(s) <==> key in Keys(Child(s, d))
    ensures Plug([FrameOf(s, d)] + path, Child(s, d)) == Plug(path, s)
  {
    PlugSearchTree(path, s);
    NodeOrder(s);
    DescendBetween(path, s, key, d);
    DescendMember(s, key, d);
    var p' := [FrameOf(s, d)] + path;
    assert p'[1..] == path;
    assert Attach(FrameOf(s, d), Child(s, d)) == s;
  }

  lemma DescendBetween<A, V>(path: seq<Frame<A, V>>, s: Tree<A, V>, key: int, d: Side)
    requires s.Node? && Between(Before(path), key, After(path))
    requires forall i :: 0 <= i < |Keys(s.left)| ==> Keys(s.left)[i] < s.key
    requires forall i :: 0 <= i < |Keys(s.right)| ==> s.key < Keys(s.right)[i]
    requires d == L ==> key < s.key
    requires d == R ==> s.key < key
    ensures Between(Before([FrameOf(s, d)] + path), key, After([FrameOf(s, d)] + path))
  {
    var p' := [FrameOf(s, d)] + path;
    assert p'[1..] == path;
    if d == L {
      assert Before(p') == Before(path);
      var a := [s.key] + Keys(s.right);
      assert After(p') == a + After(path);
      BetweenJoin(Before(path), key, a, After(path));
    } else {
      assert After(p') == After(path);
      var b := Keys(s.left) + [s.key];
      assert Before(p') == Before(path) + b;
      BetweenJoinBefore(Before(path), b, key, After(path));
    }
  }

  lemma DescendMember<A, V>(s: Tree<A, V>, key: int, d: Side)
    requires s.Node?
    requires forall i :: 0 <= i < |Keys(s.left)| ==> Keys(s.left)[i] < s.key
    requires forall i :: 0 <= i < |Keys(s.right)| ==> s.key < Keys(s.right)[i]
    requires d == L ==> key < s.key
    requires d == R ==> s.key < key
    ensures key in Keys(s) <==> key in Keys(Child(s, d))
  {
    assert Keys(s) == Keys(s.left) + [s.key] + Keys(s.right);
  }

  /** An empty position reached by a search: the key is not in the tree. */
  lemma NotBetween<A, V>(path: seq<Frame<A, V>>, key: int)
    requires Between(Before(path), key, After(path))
    ensures key !in Keys(Plug(path, Leaf))
  {
    KeysPlug(path, Leaf);
  }

  /** In a search tree, the cursor's key maps to the cursor's value. */
  lemma CursorValue<A, V>(path: seq<Frame<A, V>>, s: Tree<A, V>)
    requires SearchTree(Plug(path, s)) && s.Node?
    ensures s.key in Content(Plug(path, s)) && Content(Plug(path, s))[s.key] == s.value
  {
    CursorKeyOnce(path, s);
    ContentAround(path, s);
  }

  /** A search that reached an empty position ended there after its last turn: the turn matches the comparison. */
  lemma LastTurn<A, V>(path: seq<Frame<A, V>>, key: int)
    requires path != [] && Between(Before(path), key, After(path))
    ensures key != path[0].key
    ensures path[0].side == R <==> path[0].key < key
  {
    if path[0].side == R {
      assert Before(path) == Before(path[1..]) + Keys(path[0].sib) + [path[0].key];
      assert Before(path)[|Before(path)| - 1] == path[0].key;
    } else {
      assert After(path) == [path[0].key] + Keys(path[0].sib) + After(path[1..]);
      assert After(path)[0] == path[0].key;
    }
  }

  /** In a search tree a node is its parent's right child exactly when its key is the greater. */
  lemma ChildSide<A, V>(path: seq<Frame<A, V>>, s: Tree<A, V>)
    requires SearchTree(Plug(path, s)) && s.Node? && path != []
    ensures path[0].side == R <==> path[0].key < s.key
  {
    KeysPlug(path, s);
    var a, b, c := Before(path), Keys(s), After(path);
    IncreasingParts(a + b, c);
    IncreasingParts(a, b);
    assert b == Keys(s.left) + [s.key] + Keys(s.right);
    assert b[|Keys(s.left)|] == s.key;
    if path[0].side == R {
      assert a == Before(path[1..]) + Keys(path[0].sib) + [path[0].key];
      assert a[|a| - 1] == path[0].key;
    } else {
      assert c == [path[0].key] + Keys(path[0].sib) + After(path[1..]);
      assert c[0] == path[0].key;
      assert (a + b)[|a| + |Keys(s.left)|] == s.key;
    }
  }

  // ------------------------------------------------------ arena updates

  /** What the arena holds at the cursor's slot. */
  lemma CursorSlot<A, V>(nodes: seq<Slot<A, V>>, path: seq<Frame<A, V>>, s: Tree<A, V>)
    requires Wf(Plug(path, s)) && Repr(nodes, Plug(path, s), NIL) && s.Node?
    ensures s.id != NIL && s.id < |nodes| && ParentId(path) < |nodes|
    ensures IdOf(s.left) < |nodes| && IdOf(s.right) < |nodes|
    ensures nodes[s.id] == Slot(s.key, s.value, s.aux, IdOf(s.left), IdOf(s.right), ParentId(path))
    ensures path != [] ==> nodes[path[0].id] == FrameSlot(path[0], s.id, ParentId(path[1..]))
    ensures path != [] ==> (nodes[path[0].id].left == s.id <==> path[0].side == L)
    ensures path != [] ==> (nodes[path[0].id].right == s.id <==> path[0].side == R)
  {
    ReprPlug(nodes, path, s);
    WfPlug(path, s);
    WfNonNil(s);
    ReprBounds(nodes, s, ParentId(path));
    assert s.left.Node? ==> s.left.id in Ids(s);
    assert s.right.Node? ==> s.right.id in Ids(s);
    if path != [] {
      ReprPathBounds(nodes, path, s.id);
      assert path[0].id in PathIds(path);
      assert s.id in Ids(s);
      assert path[0].sib.Node? ==> path[0].sib.id in PathIds(path);
    }
  }

  /** The cursor's arena index is `NIL` exactly when its subtree is empty. */
  lemma LeafAtNil<A, V>(path: seq<Frame<A, V>>, s: Tree<A, V>)
    requires Wf(Plug(path, s))
    ensures IdOf(s) == NIL <==> s.Leaf?
  {
    WfPlug(path, s);
    WfNonNil(s);
    assert s.Node? ==> s.id in Ids(s);
  }

  /**
   * The slot a search for `key` stopped under, at an empty position: `NIL`
   * exactly at the root, and otherwise a node whose key differs from `key`
   * and lies on the side of the comparison the search took.
   */
  lemma {:induction false} LeafParent<A, V>(nodes: seq<Slot<A, V>>, path: seq<Frame<A, V>>, key: int)
    requires Wf(Plug(path, Leaf)) && Repr(nodes, Plug(path, Leaf), NIL)
    requires Between(Before(path), key, After(path))
    ensures ParentId(path) < |nodes| || path == []
    ensures ParentId(path) == NIL <==> path == []
    ensures path != [] ==> nodes[path[0].id].key == path[0].key && key != path[0].key
    ensures path != [] ==> (path[0].side == R <==> path[0].key < key)
  {
    if path != [] {
      ParentSlot(nodes, path, Leaf);
      LastTurn(path, key);
      WfPlug(path, Leaf);
      WfPathNonNil(path);
      assert path[0].id in PathIds(path);
    }
  }

  /** What the arena holds at the slot of the cursor's parent. */
  lemma ParentSlot<A, V>(nodes: seq<Slot<A, V>>, path: seq<Frame<A, V>>, s: Tree<A, V>)
    requires Repr(nodes, Plug(path, s), NIL) && path != []
    ensures path[0].id < |nodes| && nodes[path[0].id] == FrameSlot(path[0], IdOf(s), ParentId(path[1..]))
  {
    ReprPlug(nodes, path, s);
  }

  /** Replacing the cursor's subtree by one with the same keys and content keeps the whole tree's. */
  lemma PlugSameContent<A, V>(path: seq<Frame<A, V>>, s: Tree<A, V>, s': Tree<A, V>)
    requires Keys(s') == Keys(s) && Content(s') == Content(s)
    ensures Keys(Plug(path, s')) == Keys(Plug(path, s)) && Content(Plug(path, s')) == Content(Plug(path, s))
  {
    PlugSameKeys(path, s, s');
    ContentPlug(path, s);
    ContentPlug(path, s');
  }

  /** Writing the colour (or balance factor) of the cursor's node. */
  lemma PaintRepr<A, V>(nodes: seq<Slot<A, V>>, path: seq<Frame<A, V>>, s: Tree<A, V>, a: A)
    requires Wf(Plug(path, s)) && Repr(nodes, Plug(path, s), NIL) && s.Node?
    ensures s.id != NIL && s.id < |nodes|
    ensures Wf(Plug(path, s.(aux := a))) && Repr(nodes[s.id := nodes[s.id].(aux := a)], Plug(path, s.(aux := a)), NIL)
    ensures Keys(Plug(path, s.(aux := a))) == Keys(Plug(path, s)) && Content(Plug(path, s.(aux := a))) == Content(Plug(path, s))
    ensures IdOf(Plug(path, s.(aux := a))) == IdOf(Plug(path, s))
  {
    if path != [] {
      PlugRoot(path, s, s.(aux := a));
    }
    RewriteRepr(nodes, path, s, s.key, s.value, a);
    assert s.(aux := a) == Node(s.left, s.id, s.key, s.value, a, s.right);
    PlugSameContent(path, s, s.(aux := a));
  }

  /** Overwriting key, value and colour/balance of the cursor's slot. */
  lemma RewriteRepr<A, V>(nodes: seq<Slot<A, V>>, path: seq<Frame<A, V>>, s: Tree<A, V>, k: int, v: V, a: A)
    requires Wf(Plug(path, s)) && Repr(nodes, Plug(path, s), NIL) && s.Node?
    ensures s.id != NIL && s.id < |nodes|
    ensures nodes[s.id] == Slot(s.key, s.value, s.aux, IdOf(s.left), IdOf(s.right), ParentId(path))
    ensures var s' := Node(s.left, s.id, k, v, a, s.right);
      Wf(Plug(path, s')) && Repr(nodes[s.id := Slot(k, v, a, IdOf(s.left), IdOf(s.right), ParentId(path))], Plug(path, s'), NIL)
  {
    CursorSlot(nodes, path, s);
    var s' := Node(s.left, s.id, k, v, a, s.right);
    var nodes' := nodes[s.id := Slot(k, v, a, IdOf(s.left), IdOf(s.right), ParentId(path))];
    ReprPlug(nodes, path, s);
    WfPlug(path, s);
    WfPlug(path, s');
    assert Ids(s') == Ids(s);
    ReprBounds(nodes, s, ParentId(path));
    ReprPathBounds(nodes, path, s.id);
    ReprFrame(nodes, nodes', s.left, s.id);
    ReprFrame(nodes, nodes', s.right, s.id);
    ReprPathFrame(nodes, nodes', path, s.id);
    ReprPlug(nodes', path, s');
  }

  /** Hanging a new leaf slot at the empty position a search ended in. */
  lemma InsertLeafRepr<A, V>(nodes0: seq<Slot<A, V>>, nodes: seq<Slot<A, V>>, path: seq<Frame<A, V>>, slot: Slot<A, V>)
    requires Wf(Plug(path, Leaf)) && Repr(nodes0, Plug(path, Leaf), NIL) && |nodes0| > 0
    requires slot.left == NIL && slot.right == NIL && slot.parent == ParentId(path)
    requires path == [] ==> nodes == nodes0 + [slot]
    requires path != [] ==> path[0].id < |nodes0| && nodes == (nodes0 + [slot])[path[0].id := Relink(nodes0[path[0].id], path[0].side, |nodes0|)]
    ensures var z := Node(Leaf, |nodes0|, slot.key, slot.value, slot.aux, Leaf);
      Wf(Plug(path, z)) && Repr(nodes, Plug(path, z), NIL)
  {
    var z := Node(Leaf, |nodes0|, slot.key, slot.value, slot.aux, Leaf);
    ReprPlug(nodes0, path, Leaf);
    WfPlug(path, Leaf);
    ReprPathBounds(nodes0, path, NIL);
    WfPlug(path, z);
    if path != [] {
      assert path[0].id in PathIds(path);
      ReprPathRelink(nodes0, nodes, path, NIL, |nodes0|);
    }
    ReprPlug(nodes, path, z);
  }

  /**
   * The arena after transplant(u, v): the parent's child link (the sentinel's
   * right link when u was the root) points to v, and v's parent link points to
   * u's parent (for an empty v, the sentinel's parent link).
   */
  lemma TransplantRepr<A, V>(nodes0: seq<Slot<A, V>>, nodes: seq<Slot<A, V>>, path: seq<Frame<A, V>>, u: nat, t: Tree<A, V>, p: nat)
    requires WfPath(path) && ReprPath(nodes0, path, u) && |nodes0| > 0
    requires Wf(t) && Repr(nodes0, t, p) && Ids(t) !! PathIds(path)
    requires path == [] ==> var n1 := nodes0[NIL := nodes0[NIL].(right := IdOf(t))];
      nodes == n1[IdOf(t) := n1[IdOf(t)].(parent := NIL)]
    requires path != [] ==> var n1 := nodes0[path[0].id := Relink(nodes0[path[0].id], path[0].side, IdOf(t))];
      nodes == n1[IdOf(t) := n1[IdOf(t)].(parent := path[0].id)]
    ensures Wf(Plug(path, t)) && Repr(nodes, Plug(path, t), NIL)
  {
    ReprBounds(nodes0, t, p);
    ReprPathBounds(nodes0, path, u);
    WfNonNil(t);
    WfPathNonNil(path);
    var n1 := if path == [] then nodes0[NIL := nodes0[NIL].(right := IdOf(t))]
              else nodes0[path[0].id := Relink(nodes0[path[0].id], path[0].side, IdOf(t))];
    if path != [] {
      assert path[0].id in PathIds(path);
      ReprPathRelink(nodes0, n1, path, u, IdOf(t));
    }
    ReprFrame(nodes0, n1, t, p);
    if t.Node? {
      ReprHang(n1, t, p, ParentId(path));
      assert t.id in Ids(t);
      ReprPathFrame(n1, nodes, path, IdOf(t));
    } else {
      ReprPathFrame(n1, nodes, path, IdOf(t));
    }
    WfPlug(path, t);
    ReprPlug(nodes, path, t);
  }

  // ---------------------------------------------------------- sequences

  lemma {:induction false} IncreasingParts(a: seq<int>, b: seq<int>)
    requires Increasing(a + b)
    ensures Increasing(a) && Increasing(b)
    ensures forall i, j :: 0 <= i < |a| && 0 <= j < |b| ==> a[i] < b[j]
  {
    forall i, j | 0 <= i < |a| && 0 <= j < |b| ensures a[i] < b[j] {
      assert (a + b)[i] == a[i] && (a + b)[|a| + j] == b[j];
    }
    forall i, j | 0 <= i < j < |b| ensures b[i] < b[j] {
      assert (a + b)[|a| + i] == b[i] && (a + b)[|a| + j] == b[j];
    }
    forall i, j | 0 <= i < j < |a| ensures a[i] < a[j] {
      assert (a + b)[i] == a[i] && (a + b)[j] == a[j];
    }
  }

  lemma {:induction false} IncreasingJoin(a: seq<int>, b: seq<int>)
    requires Increasing(a) && Increasing(b)
    requires forall i, j :: 0 <= i < |a| && 0 <= j < |b| ==> a[i] < b[j]
    ensures Increasing(a + b)
  {
    var s := a + b;
    forall i, j | 0 <= i < j < |s| ensures s[i] < s[j] {
      if j < |a| {
        assert s[i] == a[i] && s[j] == a[j];
      } else if i < |a| {
        assert s[i] == a[i] && s[j] == b[j - |a|];
      } else {
        assert s[i] == b[i - |a|] && s[j] == b[j - |a|];
      }
    }
  }

  /** A key lies strictly between the keys before and after a position. */
  ghost predicate Between(before: seq<int>, k: int, after: seq<int>)
  {
    (forall i :: 0 <= i < |before| ==> before[i] < k) && (forall i :: 0 <= i < |after| ==> k < after[i])
  }

  lemma BetweenJoin(before: seq<int>, k: int, a: seq<int>, after: seq<int>)
    requires Between(before, k, after) && forall i :: 0 <= i < |a| ==> k < a[i]
    ensures Between(before, k, a + after)
  {
    forall i | 0 <= i < |a + after| ensures k < (a + after)[i] {
      if i >= |a| {
        assert (a + after)[i] == after[i - |a|];
      }
    }
  }

  lemma BetweenJoinBefore(before: seq<int>, b: seq<int>, k: int, after: seq<int>)
    requires Between(before, k, after) && forall i :: 0 <= i < |b| ==> b[i] < k
    ensures Between(before + b, k, after)
  {
    forall i | 0 <= i < |before + b| ensures (before + b)[i] < k {
      if i >= |before| {
        assert (before + b)[i] == b[i - |before|];
      }
    }
  }

  lemma {:induction false} IncreasingInsert(before: seq<int>, k: int, after: seq<int>)
    requires Increasing(before + after) && Between(before, k, after)
    ensures Increasing(before + [k] + after)
  {
    IncreasingParts(before, after);
    IncreasingJoin(before, [k]);
    IncreasingJoin(before + [k], after);
  }

  /** Where the cursor sits relative to the root: only a cursor at the root has the root's index. */
  lemma RootIsCursor<A, V>(path: seq<Frame<A, V>>, s: Tree<A, V>)
    requires Wf(Plug(path, s))
    ensures IdOf(Plug(path, s)) == IdOf(s) <==> path == []
  {
    if path != [] {
      PlugRoot(path, s, s);
      WfPlug(path, s);
      WfPathNonNil(path);
      IdsPlug(path, s);
      TopIn(path, s);
      assert s.Node? ==> s.id in Ids(s);
    }
  }

  lemma {:induction false} TopIn<A, V>(path: seq<Frame<A, V>>, s: Tree<A, V>)
    requires path != []
    ensures Plug(path, s).Node? && Plug(path, s).id in PathIds(path)
    decreases |path|
  {
    if path[1..] != [] {
      TopIn(path[1..], Attach(path[0], s));
    }
  }

  /** The nodes a rotation at the cursor rewrites are distinct arena slots. */
  lemma RotateIds<A, V>(path: seq<Frame<A, V>>, s: Tree<A, V>, d: Side)
    requires Wf(Plug(path, s)) && s.Node? && Child(s, Opp(d)).Node?
    ensures var y := Child(s, Opp(d)); var b := Child(y, d);
      s.id != y.id && s.id != NIL && y.id != NIL && (b.Node? ==> b.id != NIL) && IdOf(b) != s.id && IdOf(b) != y.id
      && (path != [] ==> ParentId(path) != s.id && ParentId(path) != y.id && ParentId(path) != IdOf(b) && ParentId(path) != NIL)
  {
    var y := Child(s, Opp(d));
    var b := Child(y, d);
    WfPlug(path, s);
    WfNonNil(s);
    assert y.id in Ids(y);
    assert b.Node? ==> b.id in Ids(y);
    if path != [] {
      WfPathNonNil(path);
      assert path[0].id in PathIds(path);
    }
  }

  /** What a rotation at the cursor reads from the arena. */
  lemma RotateSlots<A, V>(nodes: seq<Slot<A, V>>, path: seq<Frame<A, V>>, s: Tree<A, V>, d: Side)
    requires Wf(Plug(path, s)) && Repr(nodes, Plug(path, s), NIL) && s.Node? && Child(s, Opp(d)).Node?
    ensures var y := Child(s, Opp(d)); var b := Child(y, d);
      s.id < |nodes| && y.id < |nodes| && IdOf(b) < |nodes| && ParentId(path) < |nodes|
      && nodes[s.id] == Slot(s.key, s.value, s.aux, IdOf(s.left), IdOf(s.right), ParentId(path))
      && nodes[y.id] == Slot(y.key, y.value, y.aux, IdOf(y.left), IdOf(y.right), s.id)
      && (path != [] ==> (nodes[path[0].id].left == s.id <==> path[0].side == L))
      && (path != [] ==> (nodes[path[0].id].right == s.id <==> path[0].side == R))
  {
    var y := Child(s, Opp(d));
    CursorSlot(nodes, path, s);
    CursorSlot(nodes, [FrameOf(s, Opp(d))] + path, y);
    assert Plug([FrameOf(s, Opp(d))] + path, y) == Plug(path, s);
  }
}
