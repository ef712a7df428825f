/**
 * The ghost picture of a red-black tree: a value tree whose branches name the
 * node objects that hold them, and paths (zippers) that locate a subtree inside
 * the whole tree the way the original walks `parent` links.
 */
module RbShape {
  import opened RbNode

  /** A subtree. `Leaf` stands for the shared sentinel; each `Branch` records
      the node object holding it, with that node's key and colour. */
  datatype Tree = Leaf | Branch(left: Tree, ref: Node, key: int, color: Color, right: Tree)

  /** Which child of its parent a subtree is. */
  datatype Side = OnLeft | OnRight

  /** One step up from a subtree to its parent `ref`: the subtree is the
      `side` child of `ref`, and `sibling` is `ref`'s other child. */
  datatype Frame = Frame(side: Side, ref: Node, key: int, color: Color, sibling: Tree)

  /** The frames from a subtree up to the root, innermost first. */
  type Path = seq<Frame>

  function Attach(t: Tree, f: Frame): Tree
  {
    if f.side == OnLeft then Branch(t, f.ref, f.key, f.color, f.sibling)
    else Branch(f.sibling, f.ref, f.key, f.color, t)
  }

  /** The whole tree obtained by putting `t` back at the end of `path`. */
  function Plug(t: Tree, path: Path): Tree
    decreases |path|
  {
    if path == [] then t else Plug(Attach(t, path[0]), path[1..])
  }

  function Flip(s: Side): Side
  {
    if s == OnLeft then OnRight else OnLeft
  }

  /** The colour of a subtree's top node; the sentinel is black. */
  function ColorOf(t: Tree): Color
  {
    if t.Leaf? then Black else t.color
  }

  /** The node object at the top of `t`, the sentinel `nil` for a leaf. */
  function RootRef(t: Tree, nil: Node): Node
  {
    if t.Leaf? then nil else t.ref
  }

  /** The parent of the subtree a path leads to: `null` at the root. */
  function ParentRef(path: Path): Node?
  {
    if path == [] then null else path[0].ref
  }

  /** Keys in in-order (left, node, right) sequence. */
  function InOrder(t: Tree): seq<int>
  {
    if t.Leaf? then [] else InOrder(t.left) + [t.key] + InOrder(t.right)
  }

  /** The keys of the whole tree that come before the hole of `path`. */
  function PathLeft(path: Path): seq<int>
    decreases |path|
  {
    if path == [] then []
    else if path[0].side == OnLeft then PathLeft(path[1..])
    else PathLeft(path[1..]) + InOrder(path[0].sibling) + [path[0].key]
  }

  /** The keys of the whole tree that come after the hole of `path`. */
  function PathRight(path: Path): seq<int>
    decreases |path|
  {
    if path == [] then []
    else if path[0].side == OnLeft then [path[0].key] + InOrder(path[0].sibling) + PathRight(path[1..])
    else PathRight(path[1..])
  }

  /** The node objects in in-order sequence, one per key of `InOrder`. */
  function InOrderNodes(t: Tree): (r: seq<Node>)
    ensures |r| == |InOrder(t)|
  {
    if t.Leaf? then [] else InOrderNodes(t.left) + [t.ref] + InOrderNodes(t.right)
  }

  /** The node objects of the whole tree that come before the hole of `path`. */
  function PathLeftNodes(path: Path): (r: seq<Node>)
    ensures |r| == |PathLeft(path)|
    decreases |path|
  {
    if path == [] then []
    else if path[0].side == OnLeft then PathLeftNodes(path[1..])
    else PathLeftNodes(path[1..]) + InOrderNodes(path[0].sibling) + [path[0].ref]
  }

  /** The node objects of the whole tree that come after the hole of `path`. */
  function PathRightNodes(path: Path): (r: seq<Node>)
    ensures |r| == |PathRight(path)|
    decreases |path|
  {
    if path == [] then []
    else if path[0].side == OnLeft then [path[0].ref] + InOrderNodes(path[0].sibling) + PathRightNodes(path[1..])
    else PathRightNodes(path[1..])
  }

  function Nodes(t: Tree): set<Node>
  {
    if t.Leaf? then {} else Nodes(t.left) + {t.ref} + Nodes(t.right)
  }

  function PathNodes(path: Path): set<Node>
    decreases |path|
  {
    if path == [] then {} else {path[0].ref} + Nodes(path[0].sibling) + PathNodes(path[1..])
  }

  /** No node object occurs twice in `t`. */
  ghost predicate Distinct(t: Tree)
  {
    t.Branch? ==>
      Distinct(t.left) && Distinct(t.right) &&
      t.ref !in Nodes(t.left) && t.ref !in Nodes(t.right) && Nodes(t.left) !! Nodes(t.right)
  }

  /** The path one step further down, into the `side` child of `t`. */
  function Down(t: Tree, side: Side, path: Path): (r: Path)
    requires t.Branch?
    ensures |r| == |path| + 1 && r[1..] == path
    ensures Plug(if side == OnLeft then t.left else t.right, r) == Plug(t, path)
  {
    [Frame(side, t.ref, t.key, t.color, if side == OnLeft then t.right else t.left)] + path
  }

  /** The top of a non-empty path is the root of the whole tree. */
  lemma {:induction false} TopPlug(t: Tree, path: Path)
    requires path != []
    ensures Plug(t, path).Branch?
    ensures Plug(t, path).ref == path[|path| - 1].ref && Plug(t, path).color == path[|path| - 1].color
    decreases |path|
  {
    if |path| > 1 {
      TopPlug(Attach(t, path[0]), path[1..]);
    }
  }

  /** Regrouping a concatenation of five key sequences. */
  lemma Regroup<T>(a: seq<T>, b: seq<T>, c: seq<T>, d: seq<T>, e: seq<T>)
    ensures a + (b + c + d) + e == a + b + (c + d + e)
    ensures a + (b + c + d) + e == (a + b + c) + d + e
  {
  }

  /** Plugging a subtree into a path places its keys between the path's left and right keys. */
  lemma {:induction false} InOrderPlug(t: Tree, path: Path)
    ensures InOrder(Plug(t, path)) == PathLeft(path) + InOrder(t) + PathRight(path)
    decreases |path|
  {
    if path != [] {
      var f, rest := path[0], path[1..];
      InOrderPlug(Attach(t, f), rest);
      var s := InOrder(f.sibling);
      if f.side == OnLeft {
        Regroup(PathLeft(rest), InOrder(t), [f.key], s, PathRight(rest));
      } else {
        Regroup(PathLeft(rest), s, [f.key], InOrder(t), PathRight(rest));
      }
    }
  }

  /** The node objects of a plugged tree are those of the subtree and of the path. */
  lemma {:induction false} InOrderNodesPlug(t: Tree, path: Path)
    ensures InOrderNodes(Plug(t, path)) == PathLeftNodes(path) + InOrderNodes(t) + PathRightNodes(path)
    decreases |path|
  {
    if path != [] {
      var f, rest := path[0], path[1..];
      InOrderNodesPlug(Attach(t, f), rest);
      var s := InOrderNodes(f.sibling);
      if f.side == OnLeft { Regroup(PathLeftNodes(rest), InOrderNodes(t), [f.ref], s, PathRightNodes(rest)); }
      else { Regroup(PathLeftNodes(rest), s, [f.ref], InOrderNodes(t), PathRightNodes(rest)); }
    }
  }

  lemma {:induction false} NodesPlug(t: Tree, path: Path)
    ensures Nodes(Plug(t, path)) == Nodes(t) + PathNodes(path)
    decreases |path|
  {
    if path != [] {
      NodesPlug(Attach(t, path[0]), path[1..]);
    }
  }

  /** Distinctness of a whole tree gives distinctness of any subtree, and
      separates the subtree's nodes from the rest of the path. */
  lemma {:induction false} DistinctPlug(t: Tree, path: Path)
    requires Distinct(Plug(t, path))
    ensures Distinct(t) && Nodes(t) !! PathNodes(path)
    decreases |path|
  {
    if path != [] {
      DistinctPlug(Attach(t, path[0]), path[1..]);
    }
  }

  /** The facts about the first frame of a path that distinctness of the whole gives. */
  lemma DistinctHead(t: Tree, path: Path)
    requires Distinct(Plug(t, path)) && path != []
    ensures Distinct(t) && Distinct(path[0].sibling)
    ensures path[0].ref !in Nodes(t) && path[0].ref !in Nodes(path[0].sibling)
    ensures path[0].ref !in PathNodes(path[1..])
    ensures Nodes(t) !! PathNodes(path) && Nodes(path[0].sibling) !! PathNodes(path[1..])
    ensures Nodes(t) !! Nodes(path[0].sibling)
  {
    DistinctPlug(t, path);
    DistinctPlug(Attach(t, path[0]), path[1..]);
  }

  /** Replacing the subtree at the end of a path by one whose nodes are fresh
      to the path keeps the whole tree free of repeated nodes. */
  lemma {:induction false} DistinctReplace(t: Tree, u: Tree, path: Path)
    requires Distinct(Plug(t, path)) && Distinct(u) && Nodes(u) !! PathNodes(path)
    ensures Distinct(Plug(u, path))
    decreases |path|
  {
    if path != [] {
      DistinctHead(t, path);
      DistinctReplace(Attach(t, path[0]), Attach(u, path[0]), path[1..]);
    }
  }

  /** A subtree seen from the other side of its parent: the same whole tree. */
  lemma FlipAttach(t: Tree, f: Frame)
    ensures Attach(t, f) == Attach(f.sibling, Frame(Flip(f.side), f.ref, f.key, f.color, t))
  {
  }

  /** The tree after `left_rotate` at the top of `t`: the right child moves up. */
  function RotateLeft(t: Tree): (r: Tree)
    requires t.Branch? && t.right.Branch?
    ensures InOrder(r) == InOrder(t) && InOrderNodes(r) == InOrderNodes(t) && Nodes(r) == Nodes(t)
    ensures Distinct(t) ==> Distinct(r)
  {
    var y := t.right;
    assert Distinct(t) ==> Distinct(y);
    Regroup(InOrder(t.left), [t.key], InOrder(y.left), [y.key], InOrder(y.right));
    Regroup(InOrderNodes(t.left), [t.ref], InOrderNodes(y.left), [y.ref], InOrderNodes(y.right));
    Branch(Branch(t.left, t.ref, t.key, t.color, y.left), y.ref, y.key, y.color, y.right)
  }

  /** The tree after `right_rotate` at the top of `t`: the left child moves up. */
  function RotateRight(t: Tree): (r: Tree)
    requires t.Branch? && t.left.Branch?
    ensures InOrder(r) == InOrder(t) && InOrderNodes(r) == InOrderNodes(t) && Nodes(r) == Nodes(t)
    ensures Distinct(t) ==> Distinct(r)
  {
    var y := t.left;
    assert Distinct(t) ==> Distinct(y);
    Regroup(InOrder(y.left), [y.key], InOrder(y.right), [t.key], InOrder(t.right));
    Regroup(InOrderNodes(y.left), [y.ref], InOrderNodes(y.right), [t.ref], InOrderNodes(t.right));
    Branch(y.left, y.ref, y.key, y.color, Branch(y.right, t.ref, t.key, t.color, t.right))
  }
}
