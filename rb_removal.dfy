/**
 * RB-DELETE on the arena: the three ways removeNodeFromRBTree cuts a node
 * out (an empty left child, an empty right child, or two children and the
 * successor moved up), and what each leaves for the deletion fix-up.
 */
module RBRemoval {
  import opened Shapes
  import opened ShapeFacts
  import opened Splice
  import opened RedBlack
  import opened RBArena

  /**
   * What a removal leaves behind: the arena stores a search tree holding
   * `content`, and the cursor x (possibly `nil`, whose parent link then
   * names x's parent) is where the removed colour `c` was taken out. A red
   * `c` leaves a red-black tree; a black one leaves the fix-up's invariant.
   */
  ghost predicate Removed<V>(nodes: seq<Slot<Color, V>>, root: nat, t: Tree<Color, V>, x: nat,
                             path: seq<Frame<Color, V>>, s: Tree<Color, V>, c: Color, content: map<int, V>)
  {
    Stores(nodes, root, t) && t == Plug(path, s) && x == IdOf(s) && x < |nodes| && nodes[x].parent == ParentId(path)
    && SearchTree(t) && Content(t) == content
    && (c == Red ==> IsRedBlack(t)) && (c == Black ==> DeleteInv(path, s))
  }

  /**
   * Moving the successor `m` into the cursor's place removes m's colour
   * from m's old position: the tree keeps the red-black properties when it
   * was red, and the fix-up's invariant holds at m's old right child when it
   * was black. The cursor's colour moves to m together with its position.
   */
  lemma {:induction false} SuccessorColours<V>(path: seq<Frame<Color, V>>, s: Tree<Color, V>, py: seq<Frame<Color, V>>, m: Tree<Color, V>)
    requires IsRedBlack(Plug(path, s)) && s.Node? && s.right == Plug(py, m) && m.Node? && m.left.Leaf?
    ensures var xpath := py + ([Frame(R, m.id, m.key, m.value, s.aux, s.left)] + path);
      (m.aux == Red ==> IsRedBlack(Plug(xpath, m.right))) && (m.aux == Black ==> DeleteInv(xpath, m.right))
  {
    var f := Frame(R, m.id, m.key, m.value, s.aux, s.left);
    var q := py + ([FrameOf(s, R)] + path);
    var xpath := py + ([f] + path);
    PlugAppend(py, [FrameOf(s, R)] + path, m);
    assert Plug([FrameOf(s, R)] + path, s.right) == Plug(path, s);
    DeleteSplice(q, m, m.right);
    assert |q| == |xpath|;
    forall i | 0 <= i < |q| ensures q[i].aux == xpath[i].aux && q[i].sib == xpath[i].sib {
      if i < |py| {
        assert q[i] == py[i] == xpath[i];
      } else if i == |py| {
        assert q[i] == FrameOf(s, R) && xpath[i] == f;
      } else {
        assert q[i] == path[i - |py| - 1] == xpath[i];
      }
    }
    SameColoursDelete(q, xpath, m.right);
  }

  /** Removing a node with an empty child by transplant(z, c), where `c` is its other child. */
  lemma {:induction false} RemoveOneStep<V>(n0: seq<Slot<Color, V>>, root0: nat, path: seq<Frame<Color, V>>, s: Tree<Color, V>, c: Tree<Color, V>)
    requires Stores(n0, root0, Plug(path, s)) && SearchTree(Plug(path, s)) && IsRedBlack(Plug(path, s)) && s.Node?
    requires (s.left.Leaf? && c == s.right) || (s.right.Leaf? && c == s.left)
    ensures s.id < |n0| && IdOf(c) < |n0| && ParentId(path) < |n0| && n0[s.id].parent == ParentId(path)
    ensures Removed(Transplant(n0, s.id, IdOf(c)), if ParentId(path) == NIL then IdOf(c) else root0,
                    Plug(path, c), IdOf(c), path, c, s.aux, Content(Plug(path, s)) - {s.key})
  {
    RemoveOneRepr(n0, root0, path, s, c);
    ContentRemove(path, s, c);
    DeleteSplice(path, s, c);
  }

  /** The adjacent-successor branch of removeNodeFromRBTree leaves a removal state at m's old right child. */
  lemma {:induction false} RemoveAdjacentStep<V>(a0: seq<Slot<Color, V>>, a1: seq<Slot<Color, V>>, a3: seq<Slot<Color, V>>,
                                                 a4: seq<Slot<Color, V>>, a5: seq<Slot<Color, V>>, a6: seq<Slot<Color, V>>,
                                                 root0: nat, path: seq<Frame<Color, V>>, s: Tree<Color, V>)
    requires Stores(a0, root0, Plug(path, s)) && SearchTree(Plug(path, s)) && IsRedBlack(Plug(path, s))
    requires s.Node? && s.left.Node? && s.right.Node? && s.right.left.Leaf?
    requires var z, m := s.id, s.right;
      z < |a0| && m.id < |a0| && IdOf(m.right) < |a0|
      && a1 == a0[IdOf(m.right) := a0[IdOf(m.right)].(parent := m.id)]
      && a1[z].parent < |a1| && a3 == Transplant(a1, z, m.id)
      && |a3| == |a0| && a4 == a3[m.id := a3[m.id].(left := a3[z].left)]
      && a4[m.id].left < |a4| && a5 == a4[a4[m.id].left := a4[a4[m.id].left].(parent := m.id)]
      && a6 == a5[m.id := a5[m.id].(aux := a5[z].aux)]
    ensures var m := s.right;
      var xpath := [Frame(R, m.id, m.key, m.value, s.aux, s.left)] + path;
      Removed(a6, if ParentId(path) == NIL then m.id else root0, Plug(xpath, m.right), IdOf(m.right),
              xpath, m.right, m.aux, Content(Plug(path, s)) - {s.key})
  {
    var m := s.right;
    var f := Frame(R, m.id, m.key, m.value, s.aux, s.left);
    RemoveAdjacentRepr(a0, a1, a3, a4, a5, a6, root0, path, s, a5[s.id].aux);
    var py: seq<Frame<Color, V>> := [];
    assert s.right == Plug(py, m) && AllLeft(py);
    assert py + ([f] + path) == [f] + path;
    SuccessorContent(path, s, py, m, s.aux);
    SuccessorColours(path, s, py, m);
  }

  /** The far-successor branch of removeNodeFromRBTree leaves a removal state at m's old right child. */
  lemma {:induction false} RemoveSuccessorStep<V>(n0: seq<Slot<Color, V>>, n2: seq<Slot<Color, V>>, n3: seq<Slot<Color, V>>,
                                                  n4: seq<Slot<Color, V>>, n6: seq<Slot<Color, V>>, n7: seq<Slot<Color, V>>,
                                                  n8: seq<Slot<Color, V>>, n9: seq<Slot<Color, V>>,
                                                  root0: nat, path: seq<Frame<Color, V>>, s: Tree<Color, V>,
                                                  py: seq<Frame<Color, V>>, m: Tree<Color, V>)
    requires Stores(n0, root0, Plug(path, s)) && SearchTree(Plug(path, s)) && IsRedBlack(Plug(path, s))
    requires s.Node? && s.left.Node? && s.right == Plug(py, m) && py != [] && AllLeft(py) && m.Node? && m.left.Leaf?
    requires var z, y := s.id, m.id;
      y < |n0| && IdOf(m.right) < |n0| && n0[y].parent < |n0| && n2 == Transplant(n0, y, IdOf(m.right))
      && |n2| == |n0| && z < |n2| && n3 == n2[y := n2[y].(right := n2[z].right)]
      && n3[y].right < |n3| && n4 == n3[n3[y].right := n3[n3[y].right].(parent := y)]
      && n4[z].parent < |n4| && n6 == Transplant(n4, z, y)
      && |n6| == |n0| && n7 == n6[y := n6[y].(left := n6[z].left)]
      && n7[y].left < |n7| && n8 == n7[n7[y].left := n7[n7[y].left].(parent := y)]
      && n9 == n8[y := n8[y].(aux := n8[z].aux)]
    ensures var xpath := py + ([Frame(R, m.id, m.key, m.value, s.aux, s.left)] + path);
      Removed(n9, if ParentId(path) == NIL then m.id else root0, Plug(xpath, m.right), IdOf(m.right),
              xpath, m.right, m.aux, Content(Plug(path, s)) - {s.key})
  {
    RemoveSuccessorRepr(n0, n2, n3, n4, n6, n7, n8, n9, root0, path, s, py, m, n8[s.id].aux);
    SuccessorContent(path, s, py, m, s.aux);
    SuccessorColours(path, s, py, m);
  }
}
