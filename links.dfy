/**
 * How the node objects in the heap realise the ghost picture: for each node
 * of a tree, the values its five fields must hold.
 */
module RbLinks {
  import opened RbNode
  import opened RbShape

  /** The contents of one node's fields. */
  datatype Fields = Fields(key: int, color: Color, left: Node, right: Node, parent: Node?)

  /** Node `n` holds `f`. */
  ghost predicate Holds(n: Node, f: Fields)
    reads n
  {
    n.key == f.key && n.color == f.color && n.left == f.left && n.right == f.right && n.parent == f.parent
  }

  /** The fields of node `n` of subtree `t` whose top hangs from `par`; every
      absent child is the sentinel `nil`. */
  function FieldsIn(t: Tree, par: Node?, nil: Node, n: Node): Fields
    requires n in Nodes(t)
    decreases t
  {
    if n == t.ref then Fields(t.key, t.color, RootRef(t.left, nil), RootRef(t.right, nil), par)
    else if n in Nodes(t.left) then FieldsIn(t.left, t.ref, nil, n)
    else FieldsIn(t.right, t.ref, nil, n)
  }

  /** The fields of node `n` on `path` (a frame's node or a node of a sibling
      subtree) when the subtree at the end of the path has top `child`. */
  function FieldsOnPath(path: Path, child: Node, nil: Node, n: Node): Fields
    requires n in PathNodes(path)
    decreases |path|
  {
    var f := path[0];
    if n == f.ref then
      var other := RootRef(f.sibling, nil);
      Fields(f.key, f.color, if f.side == OnLeft then child else other,
             if f.side == OnLeft then other else child, ParentRef(path[1..]))
    else if n in Nodes(f.sibling) then FieldsIn(f.sibling, f.ref, nil, n)
    else FieldsOnPath(path[1..], f.ref, nil, n)
  }

  /** In a whole tree, a node's fields are those it has in the subtree at the
      end of a path, or those the path gives it. */
  lemma {:induction false} FieldsPlug(t: Tree, path: Path, nil: Node, n: Node)
    requires Distinct(Plug(t, path)) && (n in Nodes(t) || n in PathNodes(path))
    ensures n in Nodes(Plug(t, path))
    ensures FieldsIn(Plug(t, path), null, nil, n) ==
            if n in Nodes(t) then FieldsIn(t, ParentRef(path), nil, n)
            else FieldsOnPath(path, RootRef(t, nil), nil, n)
    decreases |path|
  {
    NodesPlug(t, path);
    if path != [] {
      DistinctHead(t, path);
      FieldsPlug(Attach(t, path[0]), path[1..], nil, n);
    }
  }

  /** The `j`-th node of the in-order node sequence is a node of `t` whose
      key is the `j`-th key of the in-order key sequence. */
  lemma {:induction false} InOrderNodesFields(t: Tree, par: Node?, nil: Node, j: int)
    requires Distinct(t) && 0 <= j < |InOrderNodes(t)|
    ensures InOrderNodes(t)[j] in Nodes(t)
    ensures FieldsIn(t, par, nil, InOrderNodes(t)[j]).key == InOrder(t)[j]
    decreases t
  {
    var m := |InOrderNodes(t.left)|;
    if j < m {
      InOrderNodesFields(t.left, t.ref, nil, j);
    } else if m < j {
      InOrderNodesFields(t.right, t.ref, nil, j - m - 1);
    }
  }

  /** Below its top, a subtree's fields do not depend on what it hangs from. */
  lemma FieldsInParent(t: Tree, par: Node?, par': Node?, nil: Node, n: Node)
    requires n in Nodes(t) && n != t.ref
    ensures FieldsIn(t, par, nil, n) == FieldsIn(t, par', nil, n)
  {
  }

  /** Which fields `left_rotate` changes: x's right and parent, y's left and
      parent, and the parent of y's former left child. */
  lemma RotateLeftFields(t: Tree, par: Node?, nil: Node, n: Node)
    requires t.Branch? && t.right.Branch? && Distinct(t) && n in Nodes(t)
    ensures n in Nodes(RotateLeft(t))
    ensures FieldsIn(RotateLeft(t), par, nil, n) ==
      var x, y, c := t.ref, t.right.ref, t.right.left;
      if n == x then FieldsIn(t, par, nil, n).(right := RootRef(c, nil), parent := y)
      else if n == y then FieldsIn(t, par, nil, n).(left := x, parent := par)
      else if c.Branch? && n == c.ref then FieldsIn(t, par, nil, n).(parent := x)
      else FieldsIn(t, par, nil, n)
  {
    var y, r := t.right, RotateLeft(t);
    assert Distinct(y);
    if n == t.ref || n in Nodes(t.left) {
      assert FieldsIn(r, par, nil, n) == FieldsIn(r.left, y.ref, nil, n);
    } else if n in Nodes(y.left) {
      assert FieldsIn(r, par, nil, n) == FieldsIn(r.left, y.ref, nil, n) == FieldsIn(y.left, t.ref, nil, n);
      assert FieldsIn(t, par, nil, n) == FieldsIn(y, t.ref, nil, n) == FieldsIn(y.left, y.ref, nil, n);
      if n != y.left.ref {
        FieldsInParent(y.left, y.ref, t.ref, nil, n);
      }
    } else if n in Nodes(y.right) {
      assert FieldsIn(t, par, nil, n) == FieldsIn(y, t.ref, nil, n);
    }
  }

  /** Which fields `right_rotate` changes: x's left and parent, y's right and
      parent, and the parent of y's former right child. */
  lemma RotateRightFields(t: Tree, par: Node?, nil: Node, n: Node)
    requires t.Branch? && t.left.Branch? && Distinct(t) && n in Nodes(t)
    ensures n in Nodes(RotateRight(t))
    ensures FieldsIn(RotateRight(t), par, nil, n) ==
      var x, y, c := t.ref, t.left.ref, t.left.right;
      if n == x then FieldsIn(t, par, nil, n).(left := RootRef(c, nil), parent := y)
      else if n == y then FieldsIn(t, par, nil, n).(right := x, parent := par)
      else if c.Branch? && n == c.ref then FieldsIn(t, par, nil, n).(parent := x)
      else FieldsIn(t, par, nil, n)
  {
    var y, r := t.left, RotateRight(t);
    assert Distinct(y);
    if n == t.ref || n in Nodes(t.right) {
      assert FieldsIn(r, par, nil, n) == FieldsIn(r.right, y.ref, nil, n);
    } else if n in Nodes(y.right) {
      assert FieldsIn(r, par, nil, n) == FieldsIn(r.right, y.ref, nil, n) == FieldsIn(y.right, t.ref, nil, n);
      assert FieldsIn(t, par, nil, n) == FieldsIn(y, t.ref, nil, n) == FieldsIn(y.right, y.ref, nil, n);
      if n != y.right.ref {
        FieldsInParent(y.right, y.ref, t.ref, nil, n);
      }
    } else if n in Nodes(y.left) {
      assert FieldsIn(t, par, nil, n) == FieldsIn(y, t.ref, nil, n);
    }
  }

  /** Only the first frame's node sees which child the path ends in. */
  lemma FieldsOnPathChild(path: Path, child: Node, child': Node, nil: Node, n: Node)
    requires n in PathNodes(path)
    ensures FieldsOnPath(path, child', nil, n) ==
      var f := FieldsOnPath(path, child, nil, n);
      if n != path[0].ref then f
      else if path[0].side == OnLeft then f.(left := child')
      else f.(right := child')
  {
  }
  /** What `left_rotate` at the top of `t`, found at the end of `path`, writes
      into node `n` whose fields were `f`: x's right child and parent, y's left
      child and parent, the parent of y's former left child, and the child slot
      of x's former parent. */
  function RewireLeft(t: Tree, path: Path, nil: Node, n: Node, f: Fields): Fields
    requires t.Branch? && t.right.Branch?
  {
    var x, y, c := t.ref, t.right.ref, t.right.left;
    if n == x then f.(right := RootRef(c, nil), parent := y)
    else if n == y then f.(left := x, parent := ParentRef(path))
    else if c.Branch? && n == c.ref then f.(parent := x)
    else if path != [] && n == path[0].ref then
      (if path[0].side == OnLeft then f.(left := y) else f.(right := y))
    else f
  }

  /** The mirror image, for `right_rotate`. */
  function RewireRight(t: Tree, path: Path, nil: Node, n: Node, f: Fields): Fields
    requires t.Branch? && t.left.Branch?
  {
    var x, y, c := t.ref, t.left.ref, t.left.right;
    if n == x then f.(left := RootRef(c, nil), parent := y)
    else if n == y then f.(right := x, parent := ParentRef(path))
    else if c.Branch? && n == c.ref then f.(parent := x)
    else if path != [] && n == path[0].ref then
      (if path[0].side == OnLeft then f.(left := y) else f.(right := y))
    else f
  }

  /** In a whole tree, rotating left at the end of a path rewires each node
      as `RewireLeft` says. */
  lemma RotateLeftPlugFields(t: Tree, path: Path, nil: Node, n: Node)
    requires t.Branch? && t.right.Branch? && Distinct(Plug(t, path))
    requires n in Nodes(Plug(t, path))
    ensures n in Nodes(Plug(RotateLeft(t), path))
    ensures FieldsIn(Plug(RotateLeft(t), path), null, nil, n) ==
            RewireLeft(t, path, nil, n, FieldsIn(Plug(t, path), null, nil, n))
  {
    var r := RotateLeft(t);
    NodesPlug(t, path);
    DistinctPlug(t, path);
    NodesPlug(r, path);
    DistinctReplace(t, r, path);
    FieldsPlug(t, path, nil, n);
    FieldsPlug(r, path, nil, n);
    if n in Nodes(t) {
      RotateLeftFields(t, ParentRef(path), nil, n);
    } else {
      FieldsOnPathChild(path, t.ref, r.ref, nil, n);
    }
  }

  /** In a whole tree, rotating right at the end of a path rewires each node
      as `RewireRight` says. */
  lemma RotateRightPlugFields(t: Tree, path: Path, nil: Node, n: Node)
    requires t.Branch? && t.left.Branch? && Distinct(Plug(t, path))
    requires n in Nodes(Plug(t, path))
    ensures n in Nodes(Plug(RotateRight(t), path))
    ensures FieldsIn(Plug(RotateRight(t), path), null, nil, n) ==
            RewireRight(t, path, nil, n, FieldsIn(Plug(t, path), null, nil, n))
  {
    var r := RotateRight(t);
    NodesPlug(t, path);
    DistinctPlug(t, path);
    NodesPlug(r, path);
    DistinctReplace(t, r, path);
    FieldsPlug(t, path, nil, n);
    FieldsPlug(r, path, nil, n);
    if n in Nodes(t) {
      RotateRightFields(t, ParentRef(path), nil, n);
    } else {
      FieldsOnPathChild(path, t.ref, r.ref, nil, n);
    }
  }

  /** In a whole tree, recolouring the top of the subtree at the end of a path
      changes that node's colour field and nothing else. */
  lemma RecolorPlugFields(t: Tree, path: Path, nil: Node, c: Color, n: Node)
    requires t.Branch? && Distinct(Plug(t, path)) && n in Nodes(Plug(t, path))
    ensures n in Nodes(Plug(t.(color := c), path))
    ensures FieldsIn(Plug(t.(color := c), path), null, nil, n) ==
            var f := FieldsIn(Plug(t, path), null, nil, n);
            if n == t.ref then f.(color := c) else f
  {
    var u := t.(color := c);
    NodesPlug(t, path);
    DistinctPlug(t, path);
    NodesPlug(u, path);
    DistinctReplace(t, u, path);
    FieldsPlug(t, path, nil, n);
    FieldsPlug(u, path, nil, n);
  }

  /** Hanging a new red node with sentinel children where a sentinel was sets
      that node's fields, points the parent's child slot at it, and leaves every
      other node's fields as they were. */
  lemma AttachPlugFields(path: Path, nil: Node, node: Node, key: int, n: Node)
    requires Distinct(Plug(Leaf, path)) && node !in Nodes(Plug(Leaf, path))
    requires n == node || n in Nodes(Plug(Leaf, path))
    ensures n in Nodes(Plug(Branch(Leaf, node, key, Red, Leaf), path))
    ensures FieldsIn(Plug(Branch(Leaf, node, key, Red, Leaf), path), null, nil, n) ==
            if n == node then Fields(key, Red, nil, nil, ParentRef(path))
            else
              var f := FieldsIn(Plug(Leaf, path), null, nil, n);
              if n != path[0].ref then f
              else if path[0].side == OnLeft then f.(left := node)
              else f.(right := node)
  {
    var t := Branch(Leaf, node, key, Red, Leaf);
    NodesPlug(Leaf, path);
    NodesPlug(t, path);
    DistinctReplace(Leaf, t, path);
    FieldsPlug(t, path, nil, n);
    if n != node {
      FieldsPlug(Leaf, path, nil, n);
      FieldsOnPathChild(path, nil, node, nil, n);
    }
  }
}
