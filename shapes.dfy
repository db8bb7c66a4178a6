/**
 * Tree shapes shared by the three containers (plain search tree, AVL tree,
 * red-black tree).
 *
 * Every container keeps its nodes in an arena: `nodes[i]` holds the fields of
 * one Java `Node` object (key, value, colour or balance factor, and the three
 * links), and links are arena indices. Index `NIL` (0) is the sentinel `nil`
 * of the balanced trees, and Java's `null` in the plain search tree.
 *
 * The arena is related to a ghost `Tree` whose nodes remember their arena
 * index (`Repr`). A position inside a tree is a zipper `Path`: the frames from
 * the cursor's parent (index 0) up to the root. Walking a parent link is
 * dropping the first frame; walking a child link is pushing one.
 */
module Shapes {

  /** Arena index of the sentinel node, or of Java's `null`. */
  const NIL: nat := 0

  /** The fields of one Java `Node`; `aux` is the colour or the balance factor. */
  datatype Slot<A, V> = Slot(key: int, value: V, aux: A, left: nat, right: nat, parent: nat)

  /** A tree shape; each node carries the arena index that stores it. */
  datatype Tree<A, V> =
    | Leaf
    | Node(left: Tree<A, V>, id: nat, key: int, value: V, aux: A, right: Tree<A, V>)

  /** Which child link of its parent the cursor hangs from. */
  datatype Side = L | R

  /** One step of a path: the parent node, and the sibling subtree on the other side. */
  datatype Frame<A, V> = Frame(side: Side, id: nat, key: int, value: V, aux: A, sib: Tree<A, V>)

  /** The arena index of a subtree's root (`NIL` for an empty subtree). */
  function IdOf<A, V>(t: Tree<A, V>): nat
  {
    if t.Leaf? then NIL else t.id
  }

  function Ids<A, V>(t: Tree<A, V>): set<nat>
  {
    match t
    case Leaf => {}
    case Node(l, id, _, _, _, r) => Ids(l) + {id} + Ids(r)
  }

  /** In-order key sequence. */
  function Keys<A, V>(t: Tree<A, V>): seq<int>
  {
    match t
    case Leaf => []
    case Node(l, _, k, _, _, r) => Keys(l) + [k] + Keys(r)
  }

  /** In-order sequence of arena indices. */
  function Inorder<A, V>(t: Tree<A, V>): seq<nat>
  {
    match t
    case Leaf => []
    case Node(l, id, _, _, _, r) => Inorder(l) + [id] + Inorder(r)
  }

  /** The key-value pairs stored in the tree, taken in order (a later key would win). */
  function Content<A, V>(t: Tree<A, V>): map<int, V>
  {
    match t
    case Leaf => map[]
    case Node(l, _, k, v, _, r) => Content(l) + map[k := v] + Content(r)
  }

  /** Every node sits in its own arena slot, and none in the sentinel's. */
  ghost predicate Wf<A, V>(t: Tree<A, V>)
  {
    match t
    case Leaf => true
    case Node(l, id, _, _, _, r) =>
      id != NIL && Wf(l) && Wf(r) && id !in Ids(l) && id !in Ids(r) && Ids(l) !! Ids(r)
  }

  /** The arena stores tree `t`, whose root's parent link is `p`. */
  ghost predicate Repr<A, V>(nodes: seq<Slot<A, V>>, t: Tree<A, V>, p: nat)
  {
    match t
    case Leaf => true
    case Node(l, id, k, v, a, r) =>
      id < |nodes| && nodes[id] == Slot(k, v, a, IdOf(l), IdOf(r), p)
      && Repr(nodes, l, id) && Repr(nodes, r, id)
  }

  ghost predicate Increasing(s: seq<int>)
  {
    forall i, j :: 0 <= i < j < |s| ==> s[i] < s[j]
  }

  /** The binary-search-tree order: in-order keys strictly increase. */
  ghost predicate SearchTree<A, V>(t: Tree<A, V>)
  {
    Increasing(Keys(t))
  }

  // ---------------------------------------------------------------- paths

  function Attach<A, V>(f: Frame<A, V>, s: Tree<A, V>): Tree<A, V>
  {
    if f.side == L then Node(s, f.id, f.key, f.value, f.aux, f.sib)
    else Node(f.sib, f.id, f.key, f.value, f.aux, s)
  }

  /** The whole tree obtained by putting `s` at the position `path` describes. */
  function Plug<A, V>(path: seq<Frame<A, V>>, s: Tree<A, V>): Tree<A, V>
    decreases |path|
  {
    if path == [] then s else Plug(path[1..], Attach(path[0], s))
  }

  /** The cursor's parent (`NIL` at the root). */
  function ParentId<A, V>(path: seq<Frame<A, V>>): nat
  {
    if path == [] then NIL else path[0].id
  }

  function PathIds<A, V>(path: seq<Frame<A, V>>): set<nat>
    decreases |path|
  {
    if path == [] then {} else {path[0].id} + Ids(path[0].sib) + PathIds(path[1..])
  }

  ghost predicate WfPath<A, V>(path: seq<Frame<A, V>>)
    decreases |path|
  {
    path == [] ||
    (path[0].id != NIL && Wf(path[0].sib) && path[0].id !in Ids(path[0].sib)
     && path[0].id !in PathIds(path[1..]) && Ids(path[0].sib) !! PathIds(path[1..])
     && WfPath(path[1..]))
  }

  /** A slot with the child link on `side` replaced by `c`. */
  function Relink<A, V>(slot: Slot<A, V>, side: Side, c: nat): Slot<A, V>
  {
    if side == L then slot.(left := c) else slot.(right := c)
  }

  /** The slot a frame's node has when its cursor-side child is `c` and its parent is `p`. */
  function FrameSlot<A, V>(f: Frame<A, V>, c: nat, p: nat): Slot<A, V>
  {
    if f.side == L then Slot(f.key, f.value, f.aux, c, IdOf(f.sib), p)
    else Slot(f.key, f.value, f.aux, IdOf(f.sib), c, p)
  }

  /** The arena stores the path's frames above a cursor whose arena index is `c`. */
  ghost predicate ReprPath<A, V>(nodes: seq<Slot<A, V>>, path: seq<Frame<A, V>>, c: nat)
    decreases |path|
  {
    path == [] ||
    (path[0].id < |nodes| && nodes[path[0].id] == FrameSlot(path[0], c, ParentId(path[1..]))
     && Repr(nodes, path[0].sib, path[0].id) && ReprPath(nodes, path[1..], path[0].id))
  }

  /** Keys of the whole tree that come before the cursor's subtree. */
  function Before<A, V>(path: seq<Frame<A, V>>): seq<int>
    decreases |path|
  {
    if path == [] then []
    else if path[0].side == L then Before(path[1..])
    else Before(path[1..]) + Keys(path[0].sib) + [path[0].key]
  }

  /** Keys of the whole tree that come after the cursor's subtree. */
  function After<A, V>(path: seq<Frame<A, V>>): seq<int>
    decreases |path|
  {
    if path == [] then []
    else if path[0].side == L then [path[0].key] + Keys(path[0].sib) + After(path[1..])
    else After(path[1..])
  }

  function ContentBefore<A, V>(path: seq<Frame<A, V>>): map<int, V>
    decreases |path|
  {
    if path == [] then map[]
    else if path[0].side == L then ContentBefore(path[1..])
    else ContentBefore(path[1..]) + Content(path[0].sib) + map[path[0].key := path[0].value]
  }

  function ContentAfter<A, V>(path: seq<Frame<A, V>>): map<int, V>
    decreases |path|
  {
    if path == [] then map[]
    else if path[0].side == L then map[path[0].key := path[0].value] + Content(path[0].sib) + ContentAfter(path[1..])
    else ContentAfter(path[1..])
  }

  /** Every frame of the path is a left turn: the cursor is the leftmost position below the root. */
  ghost predicate AllLeft<A, V>(path: seq<Frame<A, V>>)
  {
    forall i :: 0 <= i < |path| ==> path[i].side == L
  }

  function InorderBefore<A, V>(path: seq<Frame<A, V>>): seq<nat>
    decreases |path|
  {
    if path == [] then []
    else if path[0].side == L then InorderBefore(path[1..])
    else InorderBefore(path[1..]) + Inorder(path[0].sib) + [path[0].id]
  }

  function InorderAfter<A, V>(path: seq<Frame<A, V>>): seq<nat>
    decreases |path|
  {
    if path == [] then []
    else if path[0].side == L then [path[0].id] + Inorder(path[0].sib) + InorderAfter(path[1..])
    else InorderAfter(path[1..])
  }

  function Opp(d: Side): Side
  {
    if d == L then R else L
  }

  /** The child of `t` on side `d`. */
  function Child<A, V>(t: Tree<A, V>, d: Side): Tree<A, V>
    requires t.Node?
  {
    if d == L then t.left else t.right
  }

  /** The same parent node seen from its other child, whose sibling is now `s`. */
  function Flip<A, V>(f: Frame<A, V>, s: Tree<A, V>): Frame<A, V>
  {
    Frame(Opp(f.side), f.id, f.key, f.value, f.aux, s)
  }

  /** `t` with its child on side `d` replaced by `c`. */
  function WithChild<A, V>(t: Tree<A, V>, d: Side, c: Tree<A, V>): (r: Tree<A, V>)
    requires t.Node?
    ensures r.Node? && Child(r, d) == c && Child(r, Opp(d)) == Child(t, Opp(d))
  {
    if d == L then t.(left := c) else t.(right := c)
  }

  /** The frame that the root of `t` makes for its child on side `d`. */
  function FrameOf<A, V>(t: Tree<A, V>, d: Side): Frame<A, V>
    requires t.Node?
  {
    Frame(d, t.id, t.key, t.value, t.aux, Child(t, Opp(d)))
  }

  /** The arena index of the tree's root when the cursor's index is `c`. */
  function Top<A, V>(path: seq<Frame<A, V>>, c: nat): nat
    decreases |path|
  {
    if path == [] then c else Top(path[1..], path[0].id)
  }

  // ------------------------------------------------------------ rotations

  /** LEFT-ROTATE on shapes: x's right child y takes x's place, x becomes y's left child. */
  function RotateLeft<A, V>(t: Tree<A, V>): (r: Tree<A, V>)
    requires t.Node? && t.right.Node?
    ensures r.Node? && r.left.Node?
  {
    var y := t.right;
    Node(Node(t.left, t.id, t.key, t.value, t.aux, y.left), y.id, y.key, y.value, y.aux, y.right)
  }

  /** RIGHT-ROTATE on shapes: the mirror image of RotateLeft. */
  function RotateRight<A, V>(t: Tree<A, V>): (r: Tree<A, V>)
    requires t.Node? && t.left.Node?
    ensures r.Node? && r.right.Node?
  {
    var y := t.left;
    Node(y.left, y.id, y.key, y.value, y.aux, Node(y.right, t.id, t.key, t.value, t.aux, t.right))
  }

  /** Rotation that moves the root of `t` down to side `d`. */
  function Rotate<A, V>(t: Tree<A, V>, d: Side): (r: Tree<A, V>)
    requires t.Node? && Child(t, Opp(d)).Node?
  {
    if d == L then RotateLeft(t) else RotateRight(t)
  }
}
