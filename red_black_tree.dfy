/**
 * The red-black tree: an ordered store of integer keys whose absent children
 * are one shared black sentinel node.
 */
module RedBlackTrees {
  import opened RbNode
  import opened RbShape
  import opened RbProperties
  import opened RbLinks
  import opened RbFixupSteps

  class RedBlackTree {
    /** The shared black sentinel standing for every absent child. */
    const tnull: Node
    var root: Node
    /** Ghost picture of the tree hanging from `root`. */
    ghost var shape: Tree
    /** The real (non-sentinel) nodes of the tree. */
    ghost var Repr: set<Node>

    /** The heap realises `shape`: every node holds the fields the picture gives
        it, `root` is its top, and the sentinel is black with no links set. */
    ghost predicate Linked()
      reads this, tnull, Repr
    {
      tnull.color == Black && tnull.key == 0 &&
      tnull.left == null && tnull.right == null && tnull.parent == null &&
      Repr == Nodes(shape) && tnull !in Repr && Distinct(shape) &&
      root == RootRef(shape, tnull) &&
      forall n {:trigger Holds(n, FieldsIn(shape, null, tnull, n))} | n in Repr :: Holds(n, FieldsIn(shape, null, tnull, n))
    }

    /** The invariant kept between public operations. */
    ghost predicate Valid()
      reads this, tnull, Repr
    {
      Linked() && IsRedBlack(shape)
    }

    /** The keys of the tree, in in-order sequence. */
    ghost function Keys(): seq<int>
      reads this
    {
      InOrder(shape)
    }

    /** The node objects of the tree, in in-order sequence. */
    ghost function Order(): seq<Node>
      reads this
    {
      InOrderNodes(shape)
    }

    /** The `j`-th node in in-order sequence is a tree node holding the `j`-th key. */
    lemma OrderKeys(j: int)
      requires Linked() && 0 <= j < |Keys()|
      ensures Order()[j] in Repr && Order()[j].key == Keys()[j]
    {
      var n := Order()[j];
      InOrderNodesFields(shape, null, tnull, j);
      assert Holds(n, FieldsIn(shape, null, tnull, n));
    }

    /** A fresh tree is empty: its root is the black sentinel. */
    constructor ()
      ensures Valid() && fresh(tnull) && Repr == {}
      ensures root == tnull && tnull.color == Black && shape == Leaf && Keys() == []
    {
      var nil := new Node(0);
      nil.color := Black;
      tnull := nil;
      root := nil;
      shape := Leaf;
      Repr := {};
    }

    /** The assignment `x.color = c` to the node at the end of `path`. */
    method SetColor(x: Node, c: Color, ghost sub: Tree, ghost path: Path)
      requires Linked() && sub.Branch? && sub.ref == x && shape == Plug(sub, path)
      modifies x`color, this`shape
      ensures Linked() && shape == Plug(sub.(color := c), path)
      ensures Keys() == old(Keys()) && Order() == old(Order())
    {
      DistinctPlug(sub, path);
      NodesPlug(sub, path);
      x.color := c;
      var sub' := sub.(color := c);
      shape := Plug(sub', path);
      if path != [] {
        TopPlug(sub, path);
        TopPlug(sub', path);
      }
      NodesPlug(sub', path);
      DistinctReplace(sub, sub', path);
      forall n | n in Repr
        ensures Holds(n, FieldsIn(shape, null, tnull, n))
      {
        assert old(Holds(n, FieldsIn(Plug(sub, path), null, tnull, n)));
        RecolorPlugFields(sub, path, tnull, c, n);
      }
      InOrderPlug(sub, path);
      InOrderPlug(sub', path);
      InOrderNodesPlug(sub, path);
      InOrderNodesPlug(sub', path);
    }

    /**
     * `left_rotate(x)`: x's right child r takes x's place and x becomes r's
     * left child. Only x, r, r's former left child c (its parent link) and x's
     * former parent q (one child link) or `root` are written, and the sentinel
     * never is.
     */
    method LeftRotate(x: Node, ghost r: Node, ghost c: Node, ghost q: Node?)
      requires x.right == r && r.left == c && x.parent == q
      requires x != r && x != tnull && r != tnull && q != tnull && q != x && q != r
      requires c != tnull ==> c != x && c != r && c != q
      modifies this`root, x, r, {c} - {tnull}, {q}
      ensures x.key == old(x.key) && x.color == old(x.color) && x.left == old(x.left)
      ensures x.right == c && x.parent == r
      ensures r.key == old(r.key) && r.color == old(r.color) && r.right == old(r.right)
      ensures r.left == x && r.parent == q
      ensures c != tnull ==> c.parent == x && c.key == old(c.key) && c.color == old(c.color) &&
                             c.left == old(c.left) && c.right == old(c.right)
      ensures q == null ==> root == r
      ensures q != null ==> root == old(root) && q.key == old(q.key) && q.color == old(q.color) &&
                            q.parent == old(q.parent) &&
                            if old(q.left) == x then q.left == r && q.right == old(q.right)
                            else q.left == old(q.left) && q.right == r
    {
      var y := x.right;
      x.right := y.left;
      if y.left != tnull {
        y.left.parent := x;
      }
      y.parent := x.parent;
      if x.parent == null {
        root := y;
      } else if x == x.parent.left {
        x.parent.left := y;
      } else {
        x.parent.right := y;
      }
      y.left := x;
      x.parent := y;
    }

    /**
     * `right_rotate(x)`: the mirror image of `left_rotate`. x's left child l
     * takes x's place and x becomes l's right child; only x, l, l's former
     * right child c and x's former parent q or `root` are written.
     */
    method RightRotate(x: Node, ghost l: Node, ghost c: Node, ghost q: Node?)
      requires x.left == l && l.right == c && x.parent == q
      requires x != l && x != tnull && l != tnull && q != tnull && q != x && q != l
      requires c != tnull ==> c != x && c != l && c != q
      modifies this`root, x, l, {c} - {tnull}, {q}
      ensures x.key == old(x.key) && x.color == old(x.color) && x.right == old(x.right)
      ensures x.left == c && x.parent == l
      ensures l.key == old(l.key) && l.color == old(l.color) && l.left == old(l.left)
      ensures l.right == x && l.parent == q
      ensures c != tnull ==> c.parent == x && c.key == old(c.key) && c.color == old(c.color) &&
                             c.left == old(c.left) && c.right == old(c.right)
      ensures q == null ==> root == l
      ensures q != null ==> root == old(root) && q.key == old(q.key) && q.color == old(q.color) &&
                            q.parent == old(q.parent) &&
                            if old(q.right) == x then q.right == l && q.left == old(q.left)
                            else q.right == old(q.right) && q.left == l
    {
      var y := x.left;
      x.left := y.right;
      if y.right != tnull {
        y.right.parent := x;
      }
      y.parent := x.parent;
      if x.parent == null {
        root := y;
      } else if x == x.parent.right {
        x.parent.right := y;
      } else {
        x.parent.left := y;
      }
      y.right := x;
      x.parent := y;
    }

    /** `left_rotate` at the top of the subtree at the end of `path` keeps the
        heap a faithful picture of the tree, now rotated there, and keeps the
        keys in order. */
    method RotateLeftAt(x: Node, ghost sub: Tree, ghost path: Path)
      requires Linked() && shape == Plug(sub, path)
      requires sub.Branch? && sub.ref == x && sub.right.Branch?
      modifies this`root, this`shape, Repr
      ensures Linked() && shape == Plug(RotateLeft(sub), path)
      ensures Keys() == old(Keys()) && Order() == old(Order())
    {
      ghost var y, c, q := sub.right.ref, RootRef(sub.right.left, tnull), ParentRef(path);
      NodeAt(sub, path);
      NodeAt(sub.right, Down(sub, OnRight, path));
      if sub.right.left.Branch? {
        NodeAt(sub.right.left, Down(sub.right, OnLeft, Down(sub, OnRight, path)));
      }
      LeftRotate(x, y, c, q);
      forall n | n in Repr && n != x && n != y && n != c && n != q
        ensures Holds(n, FieldsIn(Plug(sub, path), null, tnull, n))
      {
        assert old(Holds(n, FieldsIn(Plug(sub, path), null, tnull, n)));
      }
      shape := Plug(RotateLeft(sub), path);
      RelinkLeft(sub, path);
    }

    /** `right_rotate` at the top of the subtree at the end of `path` keeps the
        heap a faithful picture of the tree, now rotated there, and keeps the
        keys in order. */
    method RotateRightAt(x: Node, ghost sub: Tree, ghost path: Path)
      requires Linked() && shape == Plug(sub, path)
      requires sub.Branch? && sub.ref == x && sub.left.Branch?
      modifies this`root, this`shape, Repr
      ensures Linked() && shape == Plug(RotateRight(sub), path)
      ensures Keys() == old(Keys()) && Order() == old(Order())
    {
      ghost var l, c, q := sub.left.ref, RootRef(sub.left.right, tnull), ParentRef(path);
      NodeAt(sub, path);
      NodeAt(sub.left, Down(sub, OnLeft, path));
      if sub.left.right.Branch? {
        NodeAt(sub.left.right, Down(sub.left, OnRight, Down(sub, OnLeft, path)));
      }
      RightRotate(x, l, c, q);
      forall n | n in Repr && n != x && n != l && n != c && n != q
        ensures Holds(n, FieldsIn(Plug(sub, path), null, tnull, n))
      {
        assert old(Holds(n, FieldsIn(Plug(sub, path), null, tnull, n)));
      }
      shape := Plug(RotateRight(sub), path);
      RelinkRight(sub, path);
    }

    /**
     * `insert(key)`: a new red node with sentinel children descends from the
     * root (left below a greater key, right otherwise) to a sentinel, takes its
     * place, and `fix_insert` restores the colour rules. The new node, returned
     * as `added`, enters the in-order sequence of nodes right after every node
     * whose key is at most `key` (so after every equal key already present)
     * and before every greater one; the other nodes keep their order.
     */
    method Insert(key: int) returns (ghost added: Node)
      requires Valid()
      modifies this`root, this`shape, this`Repr, Repr
      ensures Valid() && Keys() == InsertKey(old(Keys()), key)
      ensures multiset(Keys()) == multiset(old(Keys())) + multiset{key}
      ensures fresh(added) && added.key == key && Repr == old(Repr) + {added}
      ensures var i := InsertIndex(old(Keys()), key);
        Order() == old(Order())[..i] + [added] + old(Order())[i..]
      ensures root != tnull && root.color == Black
    {
      ghost var r0, o0 := Repr, Order();
      var node := NewNode(key);
      added := node;
      var y: Node?;
      ghost var p: Path;
      y, p := FindParent(key);
      ghost var before := InOrder(Plug(Leaf, p));
      InsertPlug(p, node, key);
      InsertPlugOrder(p, node, key);
      AttachAt(node, y, p);
      ghost var r1 := Repr;
      assert Keys() == InsertKey(before, key);
      FinishInsert(node, Branch(Leaf, node, key, Red, Leaf), p);
      assert Repr == r1 == r0 + {node} && node !in r0;
      InsertedKey(o0, before, key, node);
      BlackRoot();
    }

    /** The node `insert` placed at `InsertIndex` holds the inserted key. */
    lemma InsertedKey(o: seq<Node>, s: seq<int>, key: int, node: Node)
      requires Linked() && |o| == |s| && Keys() == InsertKey(s, key)
      requires Order() == o[..InsertIndex(s, key)] + [node] + o[InsertIndex(s, key)..]
      ensures node in Repr && node.key == key
    {
      var i := InsertIndex(s, key);
      InsertKeyAt(s, key);
      assert Order()[i] == node && Keys()[i] == key;
      OrderKeys(i);
    }

    /** A valid tree holding keys has a real, black root. */
    lemma BlackRoot()
      requires Valid() && Keys() != []
      ensures root != tnull && root.color == Black
    {
      NodeAt(shape, []);
    }

    /** The first lines of `insert`: a new red node holding `key` whose
        children are the sentinel and whose parent is `null`. */
    method NewNode(key: int) returns (node: Node)
      ensures fresh(node) && Holds(node, Fields(key, Red, tnull, tnull, null))
    {
      node := new Node(key);
      node.parent := null;
      node.key := key;
      node.left := tnull;
      node.right := tnull;
      node.color := Red;
    }

    /** The attaching lines of `insert`: the new node's parent becomes `y`,
        and `y`'s child on the side the key comparison picks (or `root`, when
        `y` is `null`) becomes the new node. Nothing else is written. */
    method Hang(node: Node, y: Node?)
      requires node != tnull && y != node && y != tnull
      modifies this`root, node`parent, {y}
      ensures node.parent == y
      ensures y == null ==> root == node
      ensures y != null ==> root == old(root) && y.key == old(y.key) && y.color == old(y.color) &&
                            y.parent == old(y.parent) &&
                            if node.key < y.key then y.left == node && y.right == old(y.right)
                            else y.left == old(y.left) && y.right == node
    {
      node.parent := y;
      if y == null {
        root := node;
      } else if node.key < y.key {
        y.left := node;
      } else {
        y.right := node;
      }
    }

    /** Hanging a new red node with sentinel children in place of the sentinel
        at the end of `path`, on the side its key selects, keeps the heap a
        faithful picture of the tree, which now holds the node there. */
    method AttachAt(node: Node, y: Node?, ghost path: Path)
      requires Linked() && shape == Plug(Leaf, path) && y == ParentRef(path)
      requires node !in Repr && node != tnull && Holds(node, Fields(node.key, Red, tnull, tnull, null))
      requires path != [] ==> (path[0].side == OnLeft <==> node.key < path[0].key)
      modifies this`root, this`shape, this`Repr, node`parent, Repr
      ensures Linked() && Repr == old(Repr) + {node}
      ensures shape == Plug(Branch(Leaf, node, node.key, Red, Leaf), path)
    {
      if path != [] {
        NodeAt(Attach(Leaf, path[0]), path[1..]);
      }
      Hang(node, y);
      forall n | n in Repr && n != y
        ensures Holds(n, FieldsIn(Plug(Leaf, path), null, tnull, n))
      {
        assert old(Holds(n, FieldsIn(Plug(Leaf, path), null, tnull, n)));
      }
      Repr := Repr + {node};
      shape := Plug(Branch(Leaf, node, node.key, Red, Leaf), path);
      RelinkAttach(path, node, node.key);
    }

    /** The end of `insert`: a new root is coloured black, a child of the root
        needs nothing, and any deeper node goes through `fix_insert`. */
    method FinishInsert(node: Node, ghost focus: Tree, ghost path: Path)
      requires Linked() && shape == Plug(focus, path) && focus.Branch? && focus.ref == node
      requires FixInv(focus, path) && Sorted(Keys())
      modifies this`root, this`shape, Repr
      ensures Valid() && Keys() == old(Keys()) && Order() == old(Order())
    {
      FixupNeighbourhood(focus, path);
      if node.parent == null {
        FixExit(focus, []);
        SetColor(node, Black, focus, []);
        return;
      }
      if node.parent.parent == null {
        TopPlug(focus, path);
        FixExit(focus, path);
        return;
      }
      FixInsert(node, focus, path);
    }

    /** The descent loop of `insert`: from the root, left below a key greater
        than `key` and right otherwise, down to a sentinel. The result is the
        last real node passed (`null` for an empty tree), the parent of that
        sentinel; the path to it separates the keys at most `key` from the
        greater ones. */
    method FindParent(key: int) returns (y: Node?, ghost p: Path)
      requires Valid()
      ensures Plug(Leaf, p) == shape && y == ParentRef(p)
      ensures AllAtMost(PathLeft(p), key) && AllAbove(PathRight(p), key)
      ensures p != [] ==> y.key == p[0].key && y in Repr && (p[0].side == OnLeft <==> key < y.key)
      ensures p != [] ==> Holds(y, FieldsIn(shape, null, tnull, y))
      ensures y == null <==> root == tnull
      ensures y != null ==> y in Repr && if key < y.key then y.left == tnull else y.right == tnull
    {
      y := null;
      var x := root;
      ghost var cur;
      cur, p := shape, [];
      while x != tnull
        invariant Plug(cur, p) == shape && x == RootRef(cur, tnull) && y == ParentRef(p)
        invariant AllAtMost(PathLeft(p), key) && AllAbove(PathRight(p), key)
        invariant p != [] ==> (p[0].side == OnLeft <==> key < p[0].key)
        invariant Nodes(cur) <= Repr && (cur.Leaf? <==> x == tnull)
        decreases cur
      {
        NodeAt(cur, p);
        DescendStep(cur, p, key);
        y := x;
        if key < x.key {
          p := Down(cur, OnLeft, p);
          cur := cur.left;
          x := x.left;
        } else {
          p := Down(cur, OnRight, p);
          cur := cur.right;
          x := x.right;
        }
      }
      if p != [] {
        assert shape == Plug(Attach(cur, p[0]), p[1..]);
        NodeAt(Attach(cur, p[0]), p[1..]);
        TopPlug(Leaf, p);
      }
    }

    /**
     * `search(key)`: a node holding `key` when the key is present, and the
     * sentinel exactly when it is absent. Being a function, it writes nothing.
     */
    function Search(key: int): (r: Node)
      requires Valid()
      reads this, tnull, Repr
      ensures r == tnull <==> key !in Keys()
      ensures r != tnull ==> r in Repr && r.key == key
    {
      SearchTreeHelper(root, key, shape, [])
    }

    /** `_search_tree_helper(node, key)` for the node at the top of `sub`:
        stop at the sentinel or at an equal key, otherwise descend left below
        a greater key and right below a smaller one. */
    function SearchTreeHelper(node: Node, key: int, ghost sub: Tree, ghost path: Path): (r: Node)
      requires Valid() && shape == Plug(sub, path) && node == RootRef(sub, tnull)
      reads this, tnull, Repr
      ensures r == tnull <==> key !in InOrder(sub)
      ensures r != tnull ==> r in Nodes(sub) && r.key == key
      decreases sub
    {
      SearchStepAt(sub, path, key);
      if node == tnull || key == node.key then
        node
      else if key < node.key then
        SearchTreeHelper(node.left, key, sub.left, Down(sub, OnLeft, path))
      else
        SearchTreeHelper(node.right, key, sub.right, Down(sub, OnRight, path))
    }

    /** What one step of the search descent may rely on at the top of `sub`. */
    lemma SearchStepAt(sub: Tree, path: Path, key: int)
      requires Valid() && shape == Plug(sub, path)
      ensures sub.Leaf? ==> RootRef(sub, tnull) == tnull
      ensures sub.Branch? ==>
        sub.ref in Repr && sub.ref != tnull && sub.ref.key == sub.key &&
        sub.ref.left == RootRef(sub.left, tnull) && sub.ref.right == RootRef(sub.right, tnull) &&
        (key < sub.key ==> key !in InOrder(sub.right)) && (sub.key < key ==> key !in InOrder(sub.left))
    {
      if sub.Branch? {
        NodeAt(sub, path);
        SearchStep(sub, path, key);
      }
    }

    /** `delete_node(key)`: the original leaves deletion unimplemented, so
        the call changes nothing, whatever the key. */
    method DeleteNode(key: int)
      ensures unchanged(this) && unchanged(tnull) && unchanged(Repr)
    {
      DeleteNodeHelper(root, key);
    }

    /** `_delete_node_helper(node, key)`: an empty body. */
    method DeleteNodeHelper(node: Node, key: int)
      ensures unchanged(this) && unchanged(tnull) && unchanged(Repr)
    {
    }

    /** After `insert` has hung the new red node where the sentinel at the end
        of `path` was, and written it into its parent's child slot, the heap
        pictures the tree with the new node. */
    lemma RelinkAttach(path: Path, node: Node, key: int)
      requires Distinct(Plug(Leaf, path)) && node !in Nodes(Plug(Leaf, path)) && node != tnull
      requires tnull.color == Black && tnull.key == 0
      requires tnull.left == null && tnull.right == null && tnull.parent == null
      requires Repr == Nodes(Plug(Leaf, path)) + {node} && tnull !in Repr
      requires shape == Plug(Branch(Leaf, node, key, Red, Leaf), path)
      requires root == if path == [] then node else RootRef(Plug(Leaf, path), tnull)
      requires Holds(node, Fields(key, Red, tnull, tnull, ParentRef(path)))
      requires path != [] ==> path[0].ref in Nodes(Plug(Leaf, path))
      requires path != [] ==>
        var f := FieldsIn(Plug(Leaf, path), null, tnull, path[0].ref);
        Holds(path[0].ref, if path[0].side == OnLeft then f.(left := node) else f.(right := node))
      requires forall n | n in Repr && n != node && n != ParentRef(path) ::
        Holds(n, FieldsIn(Plug(Leaf, path), null, tnull, n))
      ensures Linked()
    {
      var t := Branch(Leaf, node, key, Red, Leaf);
      NodesPlug(Leaf, path);
      NodesPlug(t, path);
      DistinctReplace(Leaf, t, path);
      if path != [] {
        TopPlug(Leaf, path);
        TopPlug(t, path);
      }
      forall n | n in Repr
        ensures Holds(n, FieldsIn(shape, null, tnull, n))
      {
        AttachPlugFields(path, tnull, node, key, n);
      }
    }

    /**
     * `fix_insert(node)`: climbs from the new red node, recolouring (red
     * uncle) or rotating (black uncle) until no red node has a red parent, and
     * finally blackens the root. The keys and their order are untouched.
     */
    method FixInsert(node: Node, ghost focus: Tree, ghost path: Path)
      requires Linked() && shape == Plug(focus, path) && focus.Branch? && focus.ref == node
      requires FixInv(focus, path)
      modifies this`root, this`shape, Repr
      ensures Linked() && NoRedRed(shape) && Balanced(shape) && ColorOf(shape) == Black
      ensures Keys() == old(Keys()) && Order() == old(Order())
    {
      var node := node;
      ghost var f, p := focus, path;
      ghost var k0, o0, r0 := Keys(), Order(), Repr;
      FixupNeighbourhood(f, p);
      while node != root && node.parent.color == Red
        invariant Repr == r0 && Linked() && shape == Plug(f, p) && f.Branch? && f.ref == node && FixInv(f, p)
        invariant node.parent == ParentRef(p) && (node == root <==> p == [])
        invariant p != [] ==> node.parent != null && node.parent.color == p[0].color
        invariant Keys() == k0 && Order() == o0
        decreases |p|
      {
        FixupNeighbourhood(f, p);
        ParentRed(f, p);
        if node.parent == node.parent.parent.right {
          var u := node.parent.parent.left;
          if u.color == Red {
            RecolorUncle(node, u, f, p);
            node := node.parent.parent;
            f, p := RedUncleTop(f, p), p[2..];
          } else {
            if node == node.parent.left {
              node, f, p := RotateInnerRight(node, f, p);
            }
            RecolorRotateLeft(node, f, p);
            p := OuterPath(p);
          }
        } else {
          var u := node.parent.parent.right;
          if u.color == Red {
            RecolorUncle(node, u, f, p);
            node := node.parent.parent;
            f, p := RedUncleTop(f, p), p[2..];
          } else {
            if node == node.parent.right {
              node, f, p := RotateInnerLeft(node, f, p);
            }
            RecolorRotateRight(node, f, p);
            p := OuterPath(p);
          }
        }
        FixupNeighbourhood(f, p);
      }
      FixExit(f, p);
      SetColor(root, Black, shape, []);
    }

    /** The red-uncle branch of `fix_insert` (either side): the parent and the
        uncle `u` turn black and the grandparent red, which moves the only
        possible red-red pair two levels up. */
    method RecolorUncle(node: Node, u: Node, ghost f: Tree, ghost p: Path)
      requires Linked() && shape == Plug(f, p) && f.Branch? && f.ref == node && FixInv(f, p)
      requires |p| >= 2 && p[0].color == Red && ColorOf(p[1].sibling) == Red
      requires u == RootRef(p[1].sibling, tnull)
      modifies Repr, this`shape
      ensures Linked() && shape == Plug(RedUncleTop(f, p), p[2..])
      ensures Keys() == old(Keys()) && Order() == old(Order())
      ensures FixInv(RedUncleTop(f, p), p[2..])
      ensures node.parent != null && node.parent.parent == RedUncleTop(f, p).ref
    {
      FixupNeighbourhood(f, p);
      ghost var pb := p[0].(color := Black);
      SetColor(node.parent, Black, Attach(f, p[0]), p[1..]);
      ghost var uf := Frame(Flip(p[1].side), p[1].ref, p[1].key, p[1].color, Attach(f, pb));
      FlipAttach(Attach(f, pb), p[1]);
      SetColor(u, Black, p[1].sibling, [uf] + p[2..]);
      SetColor(node.parent.parent, Red, Attach(p[1].sibling.(color := Black), uf), p[2..]);
      CaseRedUncle(f, p);
    }

    /** The inner black-uncle case of `fix_insert` with the parent a right
        child and `node` its left child: `node` moves up to the parent and the
        tree rotates right there, which leaves the outer case. */
    method RotateInnerRight(node: Node, ghost f: Tree, ghost p: Path) returns (x: Node, ghost f': Tree, ghost p': Path)
      requires Linked() && shape == Plug(f, p) && f.Branch? && f.ref == node && FixInv(f, p)
      requires |p| >= 2 && p[0].color == Red && p[0].side == OnLeft && p[1].side == OnRight
      requires node.parent == p[0].ref
      modifies this`root, this`shape, Repr
      ensures Linked() && shape == Plug(f', p') && f'.Branch? && f'.ref == x && FixInv(f', p')
      ensures |p'| == |p| && p'[0].color == Red && p'[0].side == OnRight && p'[1..] == p[1..]
      ensures x == p[0].ref && f' == InnerFocus(f, p) && p' == InnerPath(f, p)
      ensures shape == Plug(RotateRight(Attach(f, p[0])), p[1..])
      ensures Keys() == old(Keys()) && Order() == old(Order())
    {
      x := node.parent;
      RotateRightAt(x, Attach(f, p[0]), p[1..]);
      CaseInner(f, p);
      f', p' := InnerFocus(f, p), InnerPath(f, p);
    }

    /** The mirror image of `RotateInnerRight`: the parent is a left child and
        `node` its right child; the tree rotates left at the parent. */
    method RotateInnerLeft(node: Node, ghost f: Tree, ghost p: Path) returns (x: Node, ghost f': Tree, ghost p': Path)
      requires Linked() && shape == Plug(f, p) && f.Branch? && f.ref == node && FixInv(f, p)
      requires |p| >= 2 && p[0].color == Red && p[0].side == OnRight && p[1].side == OnLeft
      requires node.parent == p[0].ref
      modifies this`root, this`shape, Repr
      ensures Linked() && shape == Plug(f', p') && f'.Branch? && f'.ref == x && FixInv(f', p')
      ensures |p'| == |p| && p'[0].color == Red && p'[0].side == OnLeft && p'[1..] == p[1..]
      ensures x == p[0].ref && f' == InnerFocus(f, p) && p' == InnerPath(f, p)
      ensures shape == Plug(RotateLeft(Attach(f, p[0])), p[1..])
      ensures Keys() == old(Keys()) && Order() == old(Order())
    {
      x := node.parent;
      RotateLeftAt(x, Attach(f, p[0]), p[1..]);
      CaseInner(f, p);
      f', p' := InnerFocus(f, p), InnerPath(f, p);
    }

    /** The black-uncle branch of `fix_insert` when the parent is a right child
        and `node` its right child: the parent turns black, the grandparent red,
        and the tree rotates left at the grandparent. */
    method RecolorRotateLeft(node: Node, ghost f: Tree, ghost p: Path)
      requires Linked() && shape == Plug(f, p) && f.Branch? && f.ref == node && FixInv(f, p)
      requires |p| >= 2 && p[0].color == Red && ColorOf(p[1].sibling) == Black
      requires p[0].side == OnRight && p[1].side == OnRight
      modifies this`root, this`shape, Repr
      ensures Linked() && shape == Plug(f, OuterPath(p))
      ensures Keys() == old(Keys()) && Order() == old(Order())
      ensures FixInv(f, OuterPath(p)) && OuterPath(p)[0].color == Black
    {
      FixupNeighbourhood(f, p);
      SetColor(node.parent, Black, Attach(f, p[0]), p[1..]);
      ghost var top := Attach(Attach(f, p[0].(color := Black)), p[1]);
      SetColor(node.parent.parent, Red, top, p[2..]);
      CaseOuter(f, p);
      RotateLeftAt(node.parent.parent, top.(color := Red), p[2..]);
    }

    /** The mirror image of `RecolorRotateLeft`: the parent is a left child and
        `node` its left child; the tree rotates right at the grandparent. */
    method RecolorRotateRight(node: Node, ghost f: Tree, ghost p: Path)
      requires Linked() && shape == Plug(f, p) && f.Branch? && f.ref == node && FixInv(f, p)
      requires |p| >= 2 && p[0].color == Red && ColorOf(p[1].sibling) == Black
      requires p[0].side == OnLeft && p[1].side == OnLeft
      modifies this`root, this`shape, Repr
      ensures Linked() && shape == Plug(f, OuterPath(p))
      ensures Keys() == old(Keys()) && Order() == old(Order())
      ensures FixInv(f, OuterPath(p)) && OuterPath(p)[0].color == Black
    {
      FixupNeighbourhood(f, p);
      SetColor(node.parent, Black, Attach(f, p[0]), p[1..]);
      ghost var top := Attach(Attach(f, p[0].(color := Black)), p[1]);
      SetColor(node.parent.parent, Red, top, p[2..]);
      CaseOuter(f, p);
      RotateRightAt(node.parent.parent, top.(color := Red), p[2..]);
    }

    /** What `fix_insert` reads around `node`, the top of `focus`: its parent,
        whether it is the root, its grandparent and its uncle. */
    lemma FixupNeighbourhood(focus: Tree, path: Path)
      requires Linked() && shape == Plug(focus, path) && focus.Branch?
      ensures focus.ref in Repr && focus.ref.parent == ParentRef(path)
      ensures focus.ref == root <==> path == []
      ensures path != [] ==>
        var p := path[0].ref;
        p in Repr && p.color == path[0].color &&
        (focus.ref == p.left <==> path[0].side == OnLeft) &&
        (focus.ref == p.right <==> path[0].side == OnRight)
      ensures |path| >= 2 ==>
        var p, g, u := path[0].ref, path[1].ref, RootRef(path[1].sibling, tnull);
        p.parent == g && g in Repr && (path[1].sibling.Branch? ==> u in Repr) &&
        (p == g.right <==> path[1].side == OnRight) &&
        (if path[1].side == OnRight then g.left else g.right) == u &&
        u.color == ColorOf(path[1].sibling)
    {
      NodeAt(focus, path);
      if path != [] {
        var up := Attach(focus, path[0]);
        assert shape == Plug(up, path[1..]);
        NodeAt(up, path[1..]);
        TopPlug(focus, path);
        NodeAt(shape, []);
        if |path| >= 2 {
          var gp := Attach(up, path[1]);
          assert shape == Plug(gp, path[2..]);
          NodeAt(gp, path[2..]);
          if path[1].sibling.Branch? {
            NodeAt(path[1].sibling, Down(gp, Flip(path[1].side), path[2..]));
          }
        }
      }
    }

    /** Where the top of the subtree at the end of `path` sits in the heap. */
    lemma NodeAt(sub: Tree, path: Path)
      requires Linked() && shape == Plug(sub, path) && sub.Branch?
      ensures sub.ref in Repr && Holds(sub.ref, FieldsIn(shape, null, tnull, sub.ref))
      ensures sub.ref.key == sub.key && sub.ref.color == sub.color
      ensures sub.ref.left == RootRef(sub.left, tnull) && sub.ref.right == RootRef(sub.right, tnull)
      ensures sub.ref.parent == ParentRef(path)
      ensures Nodes(sub) <= Repr && sub.ref !in Nodes(sub.left) + Nodes(sub.right)
      ensures Nodes(sub.left) !! Nodes(sub.right)
      ensures path != [] ==>
        var p := path[0].ref;
        p in Repr && p !in Nodes(sub) && Holds(p, FieldsIn(shape, null, tnull, p)) &&
        (p.left == sub.ref <==> path[0].side == OnLeft) &&
        (p.right == sub.ref <==> path[0].side == OnRight)
    {
      DistinctPlug(sub, path);
      NodesPlug(sub, path);
      FieldsPlug(sub, path, tnull, sub.ref);
      if path != [] {
        DistinctHead(sub, path);
        FieldsPlug(sub, path, tnull, path[0].ref);
      }
    }

    /** After `left_rotate` has rewired x, y, y's former left child c and x's
        former parent q as `RewireLeft` says, and left every other node alone,
        the heap pictures the rotated tree. */
    lemma RelinkLeft(sub: Tree, path: Path)
      requires sub.Branch? && sub.right.Branch? && Distinct(Plug(sub, path))
      requires tnull.color == Black && tnull.key == 0
      requires tnull.left == null && tnull.right == null && tnull.parent == null
      requires Repr == Nodes(Plug(sub, path)) && tnull !in Repr
      requires shape == Plug(RotateLeft(sub), path)
      requires root == if path == [] then sub.right.ref else RootRef(Plug(sub, path), tnull)
      requires var x, y, c, q := sub.ref, sub.right.ref, RootRef(sub.right.left, tnull), ParentRef(path);
        forall n | n in Repr && (n == x || n == y || n == c || n == q) ::
          Holds(n, RewireLeft(sub, path, tnull, n, FieldsIn(Plug(sub, path), null, tnull, n)))
      requires var x, y, c, q := sub.ref, sub.right.ref, RootRef(sub.right.left, tnull), ParentRef(path);
        forall n | n in Repr && n != x && n != y && n != c && n != q ::
          Holds(n, FieldsIn(Plug(sub, path), null, tnull, n))
      ensures Linked() && Keys() == InOrder(Plug(sub, path)) && Order() == InOrderNodes(Plug(sub, path))
    {
      var sub' := RotateLeft(sub);
      DistinctPlug(sub, path);
      NodesPlug(sub, path);
      NodesPlug(sub', path);
      DistinctReplace(sub, sub', path);
      if path != [] {
        TopPlug(sub, path);
        TopPlug(sub', path);
      }
      forall n | n in Repr
        ensures Holds(n, FieldsIn(shape, null, tnull, n))
      {
        RotateLeftPlugFields(sub, path, tnull, n);
      }
      InOrderPlug(sub, path);
      InOrderPlug(sub', path);
      InOrderNodesPlug(sub, path);
      InOrderNodesPlug(sub', path);
    }

    /** The mirror image of `RelinkLeft`, after `right_rotate`. */
    lemma RelinkRight(sub: Tree, path: Path)
      requires sub.Branch? && sub.left.Branch? && Distinct(Plug(sub, path))
      requires tnull.color == Black && tnull.key == 0
      requires tnull.left == null && tnull.right == null && tnull.parent == null
      requires Repr == Nodes(Plug(sub, path)) && tnull !in Repr
      requires shape == Plug(RotateRight(sub), path)
      requires root == if path == [] then sub.left.ref else RootRef(Plug(sub, path), tnull)
      requires var x, l, c, q := sub.ref, sub.left.ref, RootRef(sub.left.right, tnull), ParentRef(path);
        forall n | n in Repr && (n == x || n == l || n == c || n == q) ::
          Holds(n, RewireRight(sub, path, tnull, n, FieldsIn(Plug(sub, path), null, tnull, n)))
      requires var x, l, c, q := sub.ref, sub.left.ref, RootRef(sub.left.right, tnull), ParentRef(path);
        forall n | n in Repr && n != x && n != l && n != c && n != q ::
          Holds(n, FieldsIn(Plug(sub, path), null, tnull, n))
      ensures Linked() && Keys() == InOrder(Plug(sub, path)) && Order() == InOrderNodes(Plug(sub, path))
    {
      var sub' := RotateRight(sub);
      DistinctPlug(sub, path);
      NodesPlug(sub, path);
      NodesPlug(sub', path);
      DistinctReplace(sub, sub', path);
      if path != [] {
        TopPlug(sub, path);
        TopPlug(sub', path);
      }
      forall n | n in Repr
        ensures Holds(n, FieldsIn(shape, null, tnull, n))
      {
        RotateRightPlugFields(sub, path, tnull, n);
      }
      InOrderPlug(sub, path);
      InOrderPlug(sub', path);
      InOrderNodesPlug(sub, path);
      InOrderNodesPlug(sub', path);
    }
  }
}
