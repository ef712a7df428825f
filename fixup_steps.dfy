/**
 * The insertion fix-up on the ghost picture. The loop of `fix_insert` keeps
 * `FixInv` for the subtree at `node` and the path from it to the root; each
 * lemma below is one branch of the loop body.
 */
module RbFixupSteps {
  import opened RbNode
  import opened RbShape
  import opened RbProperties

  /**
   * The loop invariant of the fix-up: `focus` is the red subtree at `node`;
   * the only red-red pair that may remain is `node` with its parent; black
   * heights are equal everywhere; and the root is black unless it is `node`.
   */
  ghost predicate FixInv(focus: Tree, path: Path)
  {
    focus.Branch? && focus.color == Red && NoRedRed(focus) &&
    NoRedRed(Plug(Blacken(focus), path)) && Balanced(Plug(focus, path)) &&
    (path != [] ==> path[|path| - 1].color == Black)
  }

  /** A new red node with sentinel children, hung where a sentinel was in a
      red-black tree, satisfies the fix-up invariant. */
  lemma FixStart(path: Path, n: Node, key: int)
    requires IsRedBlack(Plug(Leaf, path))
    ensures FixInv(Branch(Leaf, n, key, Red, Leaf), path)
  {
    var t := Branch(Leaf, n, key, Red, Leaf);
    NoRedRedReplace(Leaf, Blacken(t), path);
    BalancedReplace(Leaf, t, path);
    if path != [] {
      TopPlug(Leaf, path);
    }
  }

  /** Hanging a red node with key `key` at the sentinel where the descent of
      `insert` ends inserts `key` into the in-order keys after every key at
      most `key`, keeps them sorted, and satisfies the fix-up invariant. */
  lemma InsertPlug(path: Path, n: Node, key: int)
    requires IsRedBlack(Plug(Leaf, path))
    requires AllAtMost(PathLeft(path), key) && AllAbove(PathRight(path), key)
    ensures InOrder(Plug(Branch(Leaf, n, key, Red, Leaf), path)) == InsertKey(InOrder(Plug(Leaf, path)), key)
    ensures Sorted(InOrder(Plug(Branch(Leaf, n, key, Red, Leaf), path)))
    ensures FixInv(Branch(Leaf, n, key, Red, Leaf), path)
  {
    var t := Branch(Leaf, n, key, Red, Leaf);
    var a, b := PathLeft(path), PathRight(path);
    InOrderPlug(Leaf, path);
    InOrderPlug(t, path);
    assert InOrder(t) == [key];
    var s, r := InOrder(Plug(Leaf, path)), InOrder(Plug(t, path));
    assert s == a + b;
    assert r == a + [key] + b;
    InsertKeySplit(a, b, key);
    assert r == InsertKey(s, key);
    InsertKeySorted(s, key);
    FixStart(path, n, key);
  }

  /** Where the descent ends, the new node enters the in-order node sequence
      at the position `InsertKey` gives its key: after every node whose key is
      at most `key`, equal keys included, and before the rest. */
  lemma InsertPlugOrder(path: Path, n: Node, key: int)
    requires AllAtMost(PathLeft(path), key) && AllAbove(PathRight(path), key)
    ensures var o, i := InOrderNodes(Plug(Leaf, path)), InsertIndex(InOrder(Plug(Leaf, path)), key);
      InOrderNodes(Plug(Branch(Leaf, n, key, Red, Leaf), path)) == o[..i] + [n] + o[i..]
  {
    var t := Branch(Leaf, n, key, Red, Leaf);
    var a, b := PathLeftNodes(path), PathRightNodes(path);
    InOrderPlug(Leaf, path);
    InOrderNodesPlug(Leaf, path);
    InOrderNodesPlug(t, path);
    assert InOrderNodes(t) == [n];
    var o := InOrderNodes(Plug(Leaf, path));
    assert o == a + b;
    assert InOrder(Plug(Leaf, path)) == PathLeft(path) + PathRight(path);
    InsertIndexSplit(PathLeft(path), PathRight(path), key);
    assert o[..|a|] == a && o[|a|..] == b;
  }

  /** While the parent is red it is not the root, so a grandparent exists, and
      the grandparent is black. */
  lemma ParentRed(focus: Tree, path: Path)
    requires FixInv(focus, path) && path != [] && path[0].color == Red
    ensures |path| >= 2 && path[1].color == Black
  {
    if |path| >= 2 {
      Plug2(Blacken(focus), path);
      NoRedRedSub(Attach(Attach(Blacken(focus), path[0]), path[1]), path[2..]);
    }
  }

  /** The grandparent's subtree after the red-uncle case recolours the parent
      and the uncle black and the grandparent red. */
  function RedUncleTop(focus: Tree, path: Path): Tree
    requires |path| >= 2
  {
    Attach(Attach(focus, path[0].(color := Black)),
           path[1].(color := Red, sibling := Blacken(path[1].sibling)))
  }

  /** Red uncle: after the recolouring the invariant holds two levels up. */
  lemma CaseRedUncle(focus: Tree, path: Path)
    requires FixInv(focus, path) && path != [] && path[0].color == Red
    requires |path| >= 2 && ColorOf(path[1].sibling) == Red
    ensures FixInv(RedUncleTop(focus, path), path[2..])
  {
    var rest := path[2..];
    ParentRed(focus, path);
    Plug2(focus, path);
    Plug2(Blacken(focus), path);
    var g0 := Attach(Attach(Blacken(focus), path[0]), path[1]);
    var g1 := Attach(Attach(focus, path[0]), path[1]);
    NoRedRedSub(g0, rest);
    BalancedSub(g1, rest);
    var top := RedUncleTop(focus, path);
    NoRedRedReplace(g0, Blacken(top), rest);
    BalancedReplace(g1, top, rest);
  }

  /** The subtree at the parent after the inner case moves `node` to its parent
      and rotates there: the parent with `node`'s inner child. */
  function InnerFocus(focus: Tree, path: Path): Tree
    requires focus.Branch? && path != []
  {
    Attach(if path[0].side == OnRight then focus.left else focus.right, path[0])
  }

  /** The path from the parent after the inner-case rotation: the old `node`
      is now its parent, with `node`'s outer child as the sibling. */
  function InnerPath(focus: Tree, path: Path): Path
    requires focus.Branch? && path != []
  {
    [Frame(Flip(path[0].side), focus.ref, focus.key, focus.color,
           if path[0].side == OnRight then focus.right else focus.left)] + path[1..]
  }

  /** Inner case: rotating at the parent turns it into the outer case one level
      down, keeping the invariant; the tree is the rotated one. */
  lemma CaseInner(focus: Tree, path: Path)
    requires FixInv(focus, path) && path != [] && path[0].color == Red
    requires |path| >= 2 && path[0].side != path[1].side
    ensures FixInv(InnerFocus(focus, path), InnerPath(focus, path))
    ensures InnerFocus(focus, path).ref == path[0].ref
    ensures InnerPath(focus, path)[0].color == Red
    ensures InnerPath(focus, path)[0].side == InnerPath(focus, path)[1].side
    ensures InnerPath(focus, path)[1..] == path[1..]
    ensures Plug(InnerFocus(focus, path), InnerPath(focus, path)) ==
            Plug(if path[0].side == OnRight then RotateLeft(Attach(focus, path[0]))
                 else RotateRight(Attach(focus, path[0])), path[1..])
  {
    var rest := path[2..];
    ParentRed(focus, path);
    Plug2(focus, path);
    Plug2(Blacken(focus), path);
    var g0 := Attach(Attach(Blacken(focus), path[0]), path[1]);
    var g1 := Attach(Attach(focus, path[0]), path[1]);
    NoRedRedSub(g0, rest);
    BalancedSub(g1, rest);
    var f2, path2 := InnerFocus(focus, path), InnerPath(focus, path);
    assert path2[1] == path[1] && path2[2..] == rest;
    Plug2(f2, path2);
    Plug2(Blacken(f2), path2);
    NoRedRedReplace(g0, Attach(Attach(Blacken(f2), path2[0]), path[1]), rest);
    var p1 := Attach(focus, path[0]);
    assert Balanced(p1) && Balanced(focus) && Balanced(path[0].sibling);
    assert Balanced(f2);
    BalancedReplace(g1, Attach(Attach(f2, path2[0]), path[1]), rest);
  }

  /** The path from `node` after the outer case recolours the parent black and
      the grandparent red and rotates at the grandparent. */
  function OuterPath(path: Path): Path
    requires |path| >= 2
  {
    var p, g := path[0], path[1];
    [Frame(p.side, p.ref, p.key, Black, Attach(p.sibling, Frame(p.side, g.ref, g.key, Red, g.sibling)))]
      + path[2..]
  }

  /** Outer case: after recolouring and rotating at the grandparent the
      invariant holds, the parent is black, and the tree is the rotated one. */
  lemma CaseOuter(focus: Tree, path: Path)
    requires FixInv(focus, path) && path != [] && path[0].color == Red
    requires |path| >= 2 && path[0].side == path[1].side && ColorOf(path[1].sibling) == Black
    ensures FixInv(focus, OuterPath(path)) && OuterPath(path)[0].color == Black
    ensures
      var top := Attach(Attach(focus, path[0].(color := Black)), path[1].(color := Red));
      Plug(focus, OuterPath(path)) ==
      Plug(if path[0].side == OnRight then RotateLeft(top) else RotateRight(top), path[2..])
  {
    var rest := path[2..];
    ParentRed(focus, path);
    Plug2(focus, path);
    Plug2(Blacken(focus), path);
    var g0 := Attach(Attach(Blacken(focus), path[0]), path[1]);
    var g1 := Attach(Attach(focus, path[0]), path[1]);
    NoRedRedSub(g0, rest);
    BalancedSub(g1, rest);
    var path2 := OuterPath(path);
    assert path2[1..] == rest;
    NoRedRedReplace(g0, Attach(Blacken(focus), path2[0]), rest);
    BalancedReplace(g1, Attach(focus, path2[0]), rest);
  }

  /** When the loop stops (no parent, or a black parent), blackening the root
      leaves a tree with all colour invariants; with a black parent the root is
      already black. */
  lemma FixExit(focus: Tree, path: Path)
    requires FixInv(focus, path) && (path == [] || path[0].color == Black)
    ensures NoRedRed(Blacken(Plug(focus, path))) && Balanced(Blacken(Plug(focus, path)))
    ensures path != [] ==> Blacken(Plug(focus, path)) == Plug(focus, path)
  {
    if path != [] {
      NoRedRedReplace(Blacken(focus), focus, path);
      TopPlug(focus, path);
    }
  }
}
