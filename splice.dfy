/**
 * Removing a node from a stored tree, as the containers' delete operations
 * do it: `transplant(u, v)` hangs v's subtree where u's was, and a node with
 * two children is replaced by its in-order successor (the leftmost node of
 * its right subtree), which takes over the node's children, parent and
 * colour or balance factor. Each lemma takes the arena writes one version per
 * Java statement and gives the tree the arena then stores.
 */
module Splice {
  import opened Shapes
  import opened ShapeFacts

  /** A parent slot after its child link that held `u` is pointed at `v` (the right link when the left one is not `u`). */
  function Repoint<A, V>(slot: Slot<A, V>, u: nat, v: nat): Slot<A, V>
  {
    if slot.left == u then slot.(left := v) else slot.(right := v)
  }

  /**
   * The arena after transplant(u, v) in a tree with a sentinel: u's parent,
   * or the sentinel itself when u is the root, links `v` where it linked `u`,
   * and v (the sentinel too, when v is `nil`) takes u's parent link.
   */
  function Transplant<A, V>(nodes: seq<Slot<A, V>>, u: nat, v: nat): seq<Slot<A, V>>
    requires u < |nodes| && v < |nodes| && nodes[u].parent < |nodes|
  {
    var p := nodes[u].parent;
    var n1 := nodes[p := Repoint(nodes[p], u, v)];
    n1[v := n1[v].(parent := p)]
  }

  /**
   * The arena stores `t` below `root`. The sentinel's left link stays
   * `nil` (Java's `nil.left` is never assigned), so transplant at the root
   * writes the sentinel's right link.
   */
  ghost predicate Stored<A, V>(nodes: seq<Slot<A, V>>, root: nat, t: Tree<A, V>)
  {
    |nodes| > 0 && nodes[NIL].left == NIL && Wf(t) && Repr(nodes, t, NIL) && root == IdOf(t)
  }

  /** A parent slot stored for a path points its cursor-side link at the cursor; Repoint moves exactly that link. */
  lemma RepointRelink<A, V>(nodes: seq<Slot<A, V>>, path: seq<Frame<A, V>>, s: Tree<A, V>, v: nat)
    requires Wf(Plug(path, s)) && Repr(nodes, Plug(path, s), NIL) && s.Node? && path != []
    ensures path[0].id < |nodes| && Repoint(nodes[path[0].id], s.id, v) == Relink(nodes[path[0].id], path[0].side, v)
  {
    CursorSlot(nodes, path, s);
  }

  /**
   * transplant(u, v) where v's subtree `t` is disjoint from the path above u:
   * the arena stores the tree with `t` in u's place, and the sentinel keeps
   * its colour and left link (its parent link is u's parent when `t` is empty).
   */
  lemma {:induction false} TransplantStep<A, V>(nodes0: seq<Slot<A, V>>, path: seq<Frame<A, V>>, s: Tree<A, V>, t: Tree<A, V>, p: nat)
    requires Wf(Plug(path, s)) && Repr(nodes0, Plug(path, s), NIL) && s.Node? && |nodes0| > 0 && nodes0[NIL].left == NIL
    requires Wf(t) && Repr(nodes0, t, p) && Ids(t) !! PathIds(path) && IdOf(t) < |nodes0|
    ensures s.id < |nodes0| && nodes0[s.id].parent < |nodes0|
    ensures var n := Transplant(nodes0, s.id, IdOf(t));
      Wf(Plug(path, t)) && Repr(n, Plug(path, t), NIL)
      && |n| == |nodes0| && n[NIL].left == NIL && n[NIL].aux == nodes0[NIL].aux
      && (t.Leaf? ==> n[NIL].parent == ParentId(path))
  {
    CursorSlot(nodes0, path, s);
    ReprPlug(nodes0, path, s);
    WfPlug(path, s);
    WfPathNonNil(path);
    var u, v := s.id, IdOf(t);
    var pz := ParentId(path);
    var n1 := nodes0[pz := Repoint(nodes0[pz], u, v)];
    if path == [] {
      assert n1 == nodes0[NIL := nodes0[NIL].(right := v)];
    } else {
      RepointRelink(nodes0, path, s, v);
      assert path[0].id in PathIds(path);
    }
    TransplantRepr(nodes0, Transplant(nodes0, u, v), path, u, t, p);
    WfNonNil(t);
    assert t.Node? ==> t.id in Ids(t);
  }

  /**
   * The writes that move node `y` into the place of `z` (whose children are
   * both real): y.right = z.right, y.right.parent = y, transplant(z, y),
   * y.left = z.left, y.left.parent = y, y.color = z.color. Only four slots
   * change: y's, z's two children's, and z's parent's.
   */
  lemma ReplaceWrites<A, V>(m0: seq<Slot<A, V>>, m1: seq<Slot<A, V>>, m2: seq<Slot<A, V>>, m4: seq<Slot<A, V>>,
                            m5: seq<Slot<A, V>>, m6: seq<Slot<A, V>>, m7: seq<Slot<A, V>>, z: nat, y: nat, c: A)
    requires z < |m0| && y < |m0| && m0[z].parent < |m0| && m0[z].left < |m0| && m0[z].right < |m0|
    requires var zl, zr, pz := m0[z].left, m0[z].right, m0[z].parent;
      z != NIL && y != NIL && zl != NIL && zr != NIL && z != y && z != zl && z != zr && y != zl && y != zr && zl != zr
      && pz != z && pz != y && pz != zl && pz != zr
    requires m0[NIL].left == NIL
    requires m1 == m0[y := m0[y].(right := m0[z].right)]
    requires m2 == m1[m1[y].right := m1[m1[y].right].(parent := y)]
    requires m2[z].parent < |m2| && m4 == Transplant(m2, z, y)
    requires m5 == m4[y := m4[y].(left := m4[z].left)]
    requires m6 == m5[m5[y].left := m5[m5[y].left].(parent := y)]
    requires m7 == m6[y := m6[y].(aux := c)]
    ensures var zl, zr, pz := m0[z].left, m0[z].right, m0[z].parent;
      |m7| == |m0|
      && m7[y] == m0[y].(left := zl, right := zr, parent := pz, aux := c) && m6[z].aux == m0[z].aux
      && m7[zl] == m0[zl].(parent := y) && m7[zr] == m0[zr].(parent := y)
      && (pz != NIL ==> m7[pz] == Repoint(m0[pz], z, y))
      && m7[NIL].left == m0[NIL].left && m7[NIL].aux == m0[NIL].aux && m7[NIL].parent == m0[NIL].parent
      && Untouched(m0, m7, {y, zl, zr, pz})
  {
  }

  /**
   * After ReplaceWrites, the arena stores the tree in which `y`, a slot
   * outside the tree that keeps its key and value, stands where the cursor's
   * node stood, with its children and colour or balance factor.
   */
  lemma {:induction false} ReplaceRepr<A, V>(m0: seq<Slot<A, V>>, m7: seq<Slot<A, V>>, path: seq<Frame<A, V>>, t: Tree<A, V>, y: nat, c: A)
    requires Wf(Plug(path, t)) && Repr(m0, Plug(path, t), NIL) && t.Node? && t.left.Node? && t.right.Node?
    requires y != NIL && y < |m0| && y !in Ids(Plug(path, t))
    requires |m7| == |m0| && t.left.id < |m0| && t.right.id < |m0| && (path != [] ==> path[0].id < |m0|)
    requires m7[y] == m0[y].(left := t.left.id, right := t.right.id, parent := ParentId(path), aux := c)
    requires m7[t.left.id] == m0[t.left.id].(parent := y) && m7[t.right.id] == m0[t.right.id].(parent := y)
    requires path != [] ==> m7[path[0].id] == Repoint(m0[path[0].id], t.id, y)
    requires Untouched(m0, m7, {y, t.left.id, t.right.id, ParentId(path)})
    ensures var t' := Node(t.left, y, m0[y].key, m0[y].value, c, t.right);
      Wf(Plug(path, t')) && Repr(m7, Plug(path, t'), NIL)
  {
    var l, r, pz := t.left, t.right, ParentId(path);
    var t' := Node(l, y, m0[y].key, m0[y].value, c, r);
    ReprPlug(m0, path, t);
    WfPlug(path, t);
    IdsPlug(path, t);
    WfPathNonNil(path);
    ReprBounds(m0, t, pz);
    assert l.id in Ids(l) && r.id in Ids(r);
    assert pz != NIL ==> pz in PathIds(path);
    WfNonNil(t);
    assert Ids(t) == Ids(l) + {t.id} + Ids(r);
    assert forall i :: i in Ids(l) && i != l.id ==> i !in {y, l.id, r.id, pz};
    assert forall i :: i in Ids(r) && i != r.id ==> i !in {y, l.id, r.id, pz};
    ReprReparent(m0, m7, l, t.id, y);
    ReprReparent(m0, m7, r, t.id, y);
    assert Repr(m7, t', pz);
    if path != [] {
      RepointRelink(m0, path, t, y);
      ReprPathBounds(m0, path, t.id);
      ReprPathRelink(m0, m7, path, t.id, y);
    }
    WfPlug(path, t');
    ReprPlug(m7, path, t');
  }

  /**
   * The writes that move z's right child `y`, which has no left child, into
   * z's place: x.parent = y (x is y's right child, possibly the sentinel),
   * transplant(z, y), y.left = z.left, y.left.parent = y, y.color = z.color.
   */
  lemma AdjacentWrites<A, V>(a0: seq<Slot<A, V>>, a1: seq<Slot<A, V>>, a3: seq<Slot<A, V>>, a4: seq<Slot<A, V>>,
                             a5: seq<Slot<A, V>>, a6: seq<Slot<A, V>>, z: nat, y: nat, x: nat, c: A)
    requires z < |a0| && y < |a0| && x < |a0| && a0[z].parent < |a0| && a0[z].left < |a0|
    requires var zl, pz := a0[z].left, a0[z].parent;
      z != NIL && y != NIL && zl != NIL && z != y && z != zl && y != zl
      && x != y && x != z && x != zl && pz != z && pz != y && pz != zl && (x != NIL ==> x != pz)
    requires a0[NIL].left == NIL
    requires a1 == a0[x := a0[x].(parent := y)]
    requires a1[z].parent < |a1| && a3 == Transplant(a1, z, y)
    requires a4 == a3[y := a3[y].(left := a3[z].left)]
    requires a5 == a4[a4[y].left := a4[a4[y].left].(parent := y)]
    requires a6 == a5[y := a5[y].(aux := c)]
    ensures var zl, pz := a0[z].left, a0[z].parent;
      |a6| == |a0|
      && a6[y] == a0[y].(left := zl, parent := pz, aux := c) && a5[z].aux == a0[z].aux
      && a6[zl] == a0[zl].(parent := y)
      && (pz != NIL ==> a6[pz] == Repoint(a0[pz], z, y))
      && (x != NIL ==> a6[x] == a0[x].(parent := y))
      && a6[NIL].left == a0[NIL].left && a6[NIL].aux == a0[NIL].aux
      && (x == NIL ==> a6[NIL].parent == y)
      && Untouched(a0, a6, {y, zl, pz, x})
  {
  }

  /**
   * After AdjacentWrites, the arena stores the tree in which z's right child
   * `m` (no left child) stands in z's place with z's left subtree and colour
   * or balance factor, keeping its own right subtree.
   */
  lemma {:induction false} AdjacentRepr<A, V>(a0: seq<Slot<A, V>>, a6: seq<Slot<A, V>>, path: seq<Frame<A, V>>, s: Tree<A, V>, c: A)
    requires Wf(Plug(path, s)) && Repr(a0, Plug(path, s), NIL) && s.Node? && s.left.Node? && s.right.Node? && s.right.left.Leaf?
    requires var m, pz := s.right, ParentId(path);
      |a6| == |a0| && m.id < |a0| && s.left.id < |a0| && (path != [] ==> path[0].id < |a0|) && IdOf(m.right) < |a0|
      && a6[m.id] == a0[m.id].(left := s.left.id, parent := pz, aux := c)
      && a6[s.left.id] == a0[s.left.id].(parent := m.id)
      && (path != [] ==> a6[path[0].id] == Repoint(a0[path[0].id], s.id, m.id))
      && (m.right.Node? ==> a6[m.right.id] == a0[m.right.id].(parent := m.id))
      && Untouched(a0, a6, {m.id, s.left.id, pz, IdOf(m.right)})
    ensures var m := s.right; var t' := Node(s.left, m.id, m.key, m.value, c, m.right);
      Wf(Plug(path, t')) && Repr(a6, Plug(path, t'), NIL)
  {
    var l, m, pz := s.left, s.right, ParentId(path);
    var t' := Node(l, m.id, m.key, m.value, c, m.right);
    ReprPlug(a0, path, s);
    WfPlug(path, s);
    IdsPlug(path, s);
    WfPathNonNil(path);
    ReprBounds(a0, s, pz);
    assert l.id in Ids(l) && m.id in Ids(m);
    assert m.right.Node? ==> m.right.id in Ids(m.right);
    assert pz != NIL ==> pz in PathIds(path);
    WfNonNil(s);
    assert Ids(s) == Ids(l) + {s.id} + Ids(m) && Ids(m) == {m.id} + Ids(m.right);
    assert forall i :: i in Ids(l) && i != l.id ==> i !in {m.id, l.id, pz, IdOf(m.right)};
    assert forall i :: i in Ids(m.right) && i != IdOf(m.right) ==> i !in {m.id, l.id, pz, IdOf(m.right)};
    ReprReparent(a0, a6, l, s.id, m.id);
    assert Repr(a0, m, s.id) && Repr(a0, m.right, m.id);
    if m.right.Node? {
      assert a0[m.right.id].parent == m.id;
      assert a6[m.right.id] == a0[m.right.id];
    }
    ReprFrame(a0, a6, m.right, m.id);
    assert Repr(a6, t', pz);
    if path != [] {
      RepointRelink(a0, path, s, m.id);
      ReprPathBounds(a0, path, s.id);
      ReprPathRelink(a0, a6, path, s.id, m.id);
    }
    WfPlug(path, t');
    ReprPlug(a6, path, t');
  }

  // ------------------------------------------------------ the successor

  /** The leftmost node of a search tree holds its least key. */
  lemma {:induction false} MinKey<A, V>(py: seq<Frame<A, V>>, m: Tree<A, V>)
    requires SearchTree(Plug(py, m)) && AllLeft(py) && m.Node? && m.left.Leaf?
    ensures m.key in Content(Plug(py, m)) && forall k :: k in Content(Plug(py, m)) ==> m.key <= k
  {
    var ks := Keys(Plug(py, m));
    RemoveMinKeys(py, m);
    KeysContent(Plug(py, m));
    assert ks[0] == m.key;
    forall k | k in Content(Plug(py, m)) ensures m.key <= k {
      var i :| 0 <= i < |ks| && ks[i] == k;
      assert i == 0 || ks[0] < ks[i];
    }
  }

  /**
   * The left spine of a non-empty subtree down to its leftmost node m:
   * the subtree is m seen through the spine, every frame of which is a left turn.
   */
  function Spine<A, V>(t: Tree<A, V>): (r: (seq<Frame<A, V>>, Tree<A, V>))
    requires t.Node?
    ensures Plug(r.0, r.1) == t && AllLeft(r.0) && r.1.Node? && r.1.left.Leaf?
    decreases t
  {
    if t.left.Leaf? then ([], t)
    else
      var p := Spine(t.left);
      PlugAppend(p.0, [FrameOf(t, L)], p.1);
      assert forall i :: 0 <= i < |p.0| ==> (p.0 + [FrameOf(t, L)])[i] == p.0[i];
      (p.0 + [FrameOf(t, L)], p.1)
  }

  /** A left spine that ends at a node with no left child is the spine. */
  lemma {:induction false} SpineUnique<A, V>(py: seq<Frame<A, V>>, m: Tree<A, V>, t: Tree<A, V>)
    requires t == Plug(py, m) && AllLeft(py) && m.Node? && m.left.Leaf?
    ensures t.Node? && Spine(t) == (py, m)
    decreases |py|
  {
    if py == [] {
    } else {
      var p', f := py[..|py| - 1], py[|py| - 1];
      assert py == p' + [f];
      PlugAppend(p', [f], m);
      assert t == Attach(f, Plug(p', m)) && f.side == L;
      assert AllLeft(p') by {
        forall i | 0 <= i < |p'| ensures p'[i].side == L {
          assert p'[i] == py[i];
        }
      }
      SpineUnique(p', m, t.left);
      assert FrameOf(t, L) == f;
    }
  }

  /**
   * The slot of the leftmost node `m` of the cursor's right subtree: its
   * parent is the cursor's node exactly when `m` is the right child itself.
   */
  lemma {:induction false} MinSlot<A, V>(nodes: seq<Slot<A, V>>, path: seq<Frame<A, V>>, s: Tree<A, V>, py: seq<Frame<A, V>>, m: Tree<A, V>)
    requires Wf(Plug(path, s)) && Repr(nodes, Plug(path, s), NIL) && s.Node? && s.right == Plug(py, m) && m.Node?
    ensures m.id < |nodes| && IdOf(m.right) < |nodes| && m.id != s.id && m.id != NIL
    ensures nodes[m.id] == Slot(m.key, m.value, m.aux, IdOf(m.left), IdOf(m.right), if py == [] then s.id else py[0].id)
    ensures py != [] ==> py[0].id != s.id && py[0].id < |nodes|
  {
    var q := py + ([FrameOf(s, R)] + path);
    PlugAppend(py, [FrameOf(s, R)] + path, m);
    assert Plug([FrameOf(s, R)] + path, s.right) == Plug(path, s);
    CursorSlot(nodes, q, m);
    if py != [] {
      assert q[0] == py[0];
    } else {
      assert q[0] == FrameOf(s, R);
    }
    WfPlug(path, s);
    assert Wf(s) && s.id !in Ids(s.right);
    IdsPlug(py, m);
    assert m.id in Ids(m);
    if py != [] {
      assert py[0].id in PathIds(py);
    }
  }

  /**
   * Moving the successor `m` into the cursor's place (with colour or
   * factor `c`): the cursor's key is gone, the order is kept, and the tree is the one seen from m's old right
   * subtree along the path through m's old ancestors and its new slot.
   */
  lemma {:induction false} SuccessorContent<A, V>(path: seq<Frame<A, V>>, s: Tree<A, V>, py: seq<Frame<A, V>>, m: Tree<A, V>, c: A)
    requires SearchTree(Plug(path, s)) && s.Node? && s.right == Plug(py, m) && AllLeft(py) && m.Node? && m.left.Leaf?
    ensures var t' := Node(s.left, m.id, m.key, m.value, c, Plug(py, m.right));
      var xpath := py + ([Frame(R, m.id, m.key, m.value, c, s.left)] + path);
      Plug(xpath, m.right) == Plug(path, t') && SearchTree(Plug(path, t'))
      && Content(Plug(path, t')) == Content(Plug(path, s)) - {s.key}
  {
    var r1 := Plug(py, m.right);
    var f := Frame(R, m.id, m.key, m.value, c, s.left);
    var t' := Node(s.left, m.id, m.key, m.value, c, r1);
    PlugAppend(py, [f] + path, m.right);
    assert Plug([f] + path, r1) == Plug(path, t');
    RemoveMinKeys(py, m);
    RemoveMinContent(py, m);
    assert Keys(t') == Keys(s.left) + ([m.key] + Keys(r1));
    MapAssoc(Content(s.left), map[m.key := m.value], Content(r1));
    ContentRemove(path, s, t');
  }

  // ------------------------------------------------------ removal

  /** The arena side of transplant(z, c) for a node z with an empty child, `c` being its other child. */
  lemma {:induction false} RemoveOneRepr<A, V>(n0: seq<Slot<A, V>>, root0: nat, path: seq<Frame<A, V>>, s: Tree<A, V>, c: Tree<A, V>)
    requires Stored(n0, root0, Plug(path, s)) && s.Node? && (c == s.right || c == s.left)
    ensures s.id < |n0| && IdOf(c) < |n0| && ParentId(path) < |n0| && n0[s.id].parent == ParentId(path)
    ensures var n := Transplant(n0, s.id, IdOf(c));
      Stored(n, if ParentId(path) == NIL then IdOf(c) else root0, Plug(path, c)) && n[NIL].aux == n0[NIL].aux
      && IdOf(c) < |n| && n[IdOf(c)].parent == ParentId(path)
  {
    CursorSlot(n0, path, s);
    ReprPlug(n0, path, s);
    WfPlug(path, s);
    assert Ids(c) <= Ids(s);
    TransplantStep(n0, path, s, c, s.id);
    var n := Transplant(n0, s.id, IdOf(c));
    if path != [] {
      PlugRoot(path, s, c);
    }
    if c.Node? {
      CursorSlot(n, path, c);
    }
  }

  /**
   * Removing a node with two children whose right child `m` has no left
   * child: m takes the node's place, left subtree and colour, and the cursor
   * is m's right child.
   */
  lemma {:induction false} RemoveAdjacentRepr<A, V>(a0: seq<Slot<A, V>>, a1: seq<Slot<A, V>>, a3: seq<Slot<A, V>>,
                                                 a4: seq<Slot<A, V>>, a5: seq<Slot<A, V>>, a6: seq<Slot<A, V>>,
                                                 root0: nat, path: seq<Frame<A, V>>, s: Tree<A, V>, c: A)
    requires Stored(a0, root0, Plug(path, s))
    requires s.Node? && s.left.Node? && s.right.Node? && s.right.left.Leaf?
    requires var z, m := s.id, s.right;
      z < |a0| && m.id < |a0| && IdOf(m.right) < |a0|
      && a1 == a0[IdOf(m.right) := a0[IdOf(m.right)].(parent := m.id)]
      && a1[z].parent < |a1| && a3 == Transplant(a1, z, m.id)
      && |a3| == |a0| && a4 == a3[m.id := a3[m.id].(left := a3[z].left)]
      && a4[m.id].left < |a4| && a5 == a4[a4[m.id].left := a4[a4[m.id].left].(parent := m.id)]
      && a6 == a5[m.id := a5[m.id].(aux := c)]
    ensures a5[s.id].aux == s.aux
    ensures var m := s.right;
      var xpath := [Frame(R, m.id, m.key, m.value, c, s.left)] + path;
      Stored(a6, if ParentId(path) == NIL then m.id else root0, Plug(xpath, m.right)) && a6[NIL].aux == a0[NIL].aux
      && IdOf(m.right) < |a6| && a6[IdOf(m.right)].parent == ParentId(xpath)
  {
    var m := s.right;
    var f := Frame(R, m.id, m.key, m.value, c, s.left);
    var xpath := [f] + path;
    var t' := Node(s.left, m.id, m.key, m.value, c, m.right);
    CursorSlot(a0, path, s);
    MinSlot(a0, path, s, [], m);
    WfPlug(path, s);
    WfPathNonNil(path);
    IdsPlug(path, s);
    WfNonNil(s);
    assert s.left.id in Ids(s.left) && m.id in Ids(m);
    assert m.right.Node? ==> m.right.id in Ids(m.right);
    assert ParentId(path) != NIL ==> ParentId(path) in PathIds(path);
    AdjacentWrites(a0, a1, a3, a4, a5, a6, s.id, m.id, IdOf(m.right), c);
    AdjacentRepr(a0, a6, path, s, c);
    assert Plug(xpath, m.right) == Plug(path, t');
    if path != [] {
      PlugRoot(path, s, t');
    }
    if m.right.Node? {
      CursorSlot(a6, xpath, m.right);
    }
  }

  /**
   * transplant(y, y.right) for the successor `m` of the cursor, when m is
   * deeper than the cursor's right child: m's right subtree takes m's place
   * and m's slot is left out of the stored tree.
   */
  lemma {:induction false} SuccessorCutRepr<A, V>(n0: seq<Slot<A, V>>, root0: nat, path: seq<Frame<A, V>>, s: Tree<A, V>,
                                               py: seq<Frame<A, V>>, m: Tree<A, V>)
    requires Stored(n0, root0, Plug(path, s)) && s.Node? && s.left.Node? && s.right == Plug(py, m) && py != [] && m.Node?
    ensures m.id < |n0| && IdOf(m.right) < |n0| && n0[m.id].parent < |n0| && n0[m.id].parent != NIL
    ensures var n2 := Transplant(n0, m.id, IdOf(m.right));
      var s1 := s.(right := Plug(py, m.right));
      Stored(n2, root0, Plug(path, s1)) && n2[NIL].aux == n0[NIL].aux && s1.right.Node? && IdOf(s1.right) == IdOf(s.right)
      && m.id != NIL && m.id < |n2| && m.id !in Ids(Plug(path, s1))
      && n2[m.id].key == m.key && n2[m.id].value == m.value
      && (m.right.Leaf? ==> n2[NIL].parent == py[0].id)
  {
    var q := py + ([FrameOf(s, R)] + path);
    var s1 := s.(right := Plug(py, m.right));
    PlugAppend(py, [FrameOf(s, R)] + path, m);
    PlugAppend(py, [FrameOf(s, R)] + path, m.right);
    assert Plug([FrameOf(s, R)] + path, s.right) == Plug(path, s);
    assert Plug([FrameOf(s, R)] + path, s1.right) == Plug(path, s1);
    assert q[0] == py[0];
    MinSlot(n0, path, s, py, m);
    CursorSlot(n0, q, m);
    ReprPlug(n0, q, m);
    WfPlug(q, m);
    WfPathNonNil(q);
    assert py[0].id in PathIds(q);
    assert Ids(m.right) <= Ids(m) && m.id in Ids(m);
    TransplantStep(n0, q, m, m.right, m.id);
    IdsPlug(q, m.right);
    PlugRoot(py, m, m.right);
    if path != [] {
      PlugRoot(path, s, s1);
    }
  }

  /**
   * Removing a node with two children whose successor `m` is deeper than
   * its right child: m's right subtree takes m's place, then m takes the
   * node's place, both subtrees and colour, and the cursor is m's old right
   * child below m's old parent.
   */
  lemma {:induction false} RemoveSuccessorRepr<A, V>(n0: seq<Slot<A, V>>, n2: seq<Slot<A, V>>, n3: seq<Slot<A, V>>,
                                                  n4: seq<Slot<A, V>>, n6: seq<Slot<A, V>>, n7: seq<Slot<A, V>>,
                                                  n8: seq<Slot<A, V>>, n9: seq<Slot<A, V>>,
                                                  root0: nat, path: seq<Frame<A, V>>, s: Tree<A, V>,
                                                  py: seq<Frame<A, V>>, m: Tree<A, V>, c: A)
    requires Stored(n0, root0, Plug(path, s)) && s.Node? && s.left.Node? && s.right == Plug(py, m) && py != [] && m.Node?
    requires var z, y := s.id, m.id;
      y < |n0| && IdOf(m.right) < |n0| && n0[y].parent < |n0| && n2 == Transplant(n0, y, IdOf(m.right))
      && |n2| == |n0| && z < |n2| && n3 == n2[y := n2[y].(right := n2[z].right)]
      && n3[y].right < |n3| && n4 == n3[n3[y].right := n3[n3[y].right].(parent := y)]
      && n4[z].parent < |n4| && n6 == Transplant(n4, z, y)
      && |n6| == |n0| && n7 == n6[y := n6[y].(left := n6[z].left)]
      && n7[y].left < |n7| && n8 == n7[n7[y].left := n7[n7[y].left].(parent := y)]
      && n9 == n8[y := n8[y].(aux := c)]
    ensures n8[s.id].aux == s.aux
    ensures var xpath := py + ([Frame(R, m.id, m.key, m.value, c, s.left)] + path);
      Stored(n9, if ParentId(path) == NIL then m.id else root0, Plug(xpath, m.right)) && n9[NIL].aux == n0[NIL].aux
      && IdOf(m.right) < |n9| && n9[IdOf(m.right)].parent == ParentId(xpath)
  {
    var f := Frame(R, m.id, m.key, m.value, c, s.left);
    var xpath := py + ([f] + path);
    var s1 := s.(right := Plug(py, m.right));
    var t' := Node(s.left, m.id, m.key, m.value, c, s1.right);
    SuccessorCutRepr(n0, root0, path, s, py, m);
    CursorSlot(n2, path, s1);
    WfPlug(path, s1);
    WfPathNonNil(path);
    IdsPlug(path, s1);
    WfNonNil(s1);
    assert s1.left.id in Ids(s1.left) && s1.right.id in Ids(s1.right);
    assert ParentId(path) != NIL ==> ParentId(path) in PathIds(path);
    ReplaceWrites(n2, n3, n4, n6, n7, n8, n9, s.id, m.id, c);
    ReplaceRepr(n2, n9, path, s1, m.id, c);
    PlugAppend(py, [f] + path, m.right);
    assert Plug([f] + path, s1.right) == Plug(path, t');
    if path != [] {
      PlugRoot(path, s1, t');
    }
    assert xpath[0] == py[0];
    if m.right.Node? {
      CursorSlot(n9, xpath, m.right);
    }
  }

  /** The removed node's slot, and which of its children are `nil`. */
  lemma {:induction false} CutSlots<A, V>(n0: seq<Slot<A, V>>, root0: nat, path: seq<Frame<A, V>>, s: Tree<A, V>)
    requires Stored(n0, root0, Plug(path, s)) && s.Node?
    ensures s.id < |n0| && n0[s.id] == Slot(s.key, s.value, s.aux, IdOf(s.left), IdOf(s.right), ParentId(path))
    ensures (IdOf(s.left) == NIL <==> s.left.Leaf?) && (IdOf(s.right) == NIL <==> s.right.Leaf?)
  {
    CursorSlot(n0, path, s);
    WfPlug(path, s);
    WfNonNil(s);
    assert s.left.Node? ==> s.left.id in Ids(s);
    assert s.right.Node? ==> s.right.id in Ids(s);
  }

  /**
   * The slots the two-child branch of a delete reads before it
   * writes: the removed node z, its successor y (the leftmost node of z's
   * right subtree) and y's right child x, which are pairwise distinct
   * except that x may be `nil`.
   */
  lemma {:induction false} SuccessorSlots<A, V>(n0: seq<Slot<A, V>>, root0: nat, path: seq<Frame<A, V>>, s: Tree<A, V>,
                                             py: seq<Frame<A, V>>, m: Tree<A, V>)
    requires Stored(n0, root0, Plug(path, s)) && s.Node? && s.left.Node? && s.right == Plug(py, m) && m.Node?
    ensures s.id != NIL && s.id < |n0| && ParentId(path) < |n0| && ParentId(path) != s.id
    ensures n0[s.id] == Slot(s.key, s.value, s.aux, s.left.id, IdOf(s.right), ParentId(path))
    ensures s.left.id < |n0| && s.left.id != s.id && IdOf(s.right) < |n0| && IdOf(s.right) != s.id
    ensures m.id < |n0| && IdOf(m.right) < |n0| && m.id != s.id && m.id != NIL && IdOf(m.right) != s.id
    ensures n0[m.id] == Slot(m.key, m.value, m.aux, IdOf(m.left), IdOf(m.right), if py == [] then s.id else py[0].id)
    ensures py != [] ==> py[0].id != s.id && py[0].id != NIL && py[0].id < |n0|
  {
    CursorSlot(n0, path, s);
    MinSlot(n0, path, s, py, m);
    WfPlug(path, s);
    WfPathNonNil(path);
    assert ParentId(path) != NIL ==> ParentId(path) in PathIds(path);
    IdsPlug(path, s);
    assert s.id in Ids(s) && s.id !in Ids(s.left) && s.id !in Ids(s.right);
    assert s.left.id in Ids(s.left);
    assert Wf(s.right);
    WfPlug(py, m);
    IdsPlug(py, m);
    WfPathNonNil(py);
    assert Ids(m.right) <= Ids(m);
    if m.right.Node? {
      assert m.right.id in Ids(m.right);
    }
    if py != [] {
      assert py[0].id in PathIds(py);
      PlugRoot(py, m, m);
    }
  }
}
