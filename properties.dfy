/**
 * The red-black invariants on the ghost picture, and what each step of the
 * insertion fix-up does to them.
 */
module RbProperties {
  import opened RbNode
  import opened RbShape

  /** Number of black nodes on the leftmost path below and including the top
      (the sentinel is not counted). In a balanced tree every path has it. */
  function BlackHeight(t: Tree): nat
  {
    if t.Leaf? then 0 else BlackHeight(t.left) + (if t.color == Black then 1 else 0)
  }

  /** Every node's two subtrees have the same black height. */
  ghost predicate Balanced(t: Tree)
  {
    t.Branch? ==>
      BlackHeight(t.left) == BlackHeight(t.right) && Balanced(t.left) && Balanced(t.right)
  }

  /** No red node has a red child. */
  ghost predicate NoRedRed(t: Tree)
  {
    t.Branch? ==>
      (t.color == Red ==> ColorOf(t.left) == Black && ColorOf(t.right) == Black) &&
      NoRedRed(t.left) && NoRedRed(t.right)
  }

  ghost predicate Sorted(s: seq<int>)
  {
    forall i, j :: 0 <= i < j < |s| ==> s[i] <= s[j]
  }

  /** The invariants the tree keeps between public operations. */
  ghost predicate IsRedBlack(t: Tree)
  {
    Sorted(InOrder(t)) && ColorOf(t) == Black && NoRedRed(t) && Balanced(t)
  }

  /** Number of nodes on the longest downward path (the sentinel not counted). */
  function Height(t: Tree): nat
  {
    if t.Leaf? then 0
    else 1 + (if Height(t.left) < Height(t.right) then Height(t.right) else Height(t.left))
  }

  function Pow2(n: nat): nat
  {
    if n == 0 then 1 else 2 * Pow2(n - 1)
  }

  /** Red nodes never follow red nodes and black heights agree, so no path is
      more than twice the black height long (plus one for a red top). */
  lemma {:induction false} HeightBound(t: Tree)
    requires NoRedRed(t) && Balanced(t)
    ensures Height(t) <= 2 * BlackHeight(t) + (if ColorOf(t) == Red then 1 else 0)
  {
    if t.Branch? {
      HeightBound(t.left);
      HeightBound(t.right);
    }
  }

  /** A balanced tree holds at least 2^(black height) - 1 keys. */
  lemma {:induction false} SizeBound(t: Tree)
    requires Balanced(t)
    ensures |InOrder(t)| + 1 >= Pow2(BlackHeight(t))
  {
    if t.Branch? {
      SizeBound(t.left);
      SizeBound(t.right);
    }
  }

  lemma {:induction false} Pow2Monotone(m: nat, n: nat)
    requires m <= n
    ensures Pow2(m) <= Pow2(n)
    decreases n
  {
    if m < n {
      Pow2Monotone(m, n - 1);
    }
  }

  /** The height of a red-black tree is logarithmic in its number of keys:
      the height is at most twice the black height `b`, and 2^b <= n + 1, so
      2^(height / 2) <= n + 1. */
  lemma HeightLogarithmic(t: Tree)
    requires IsRedBlack(t)
    ensures Height(t) <= 2 * BlackHeight(t) && Pow2(BlackHeight(t)) <= |InOrder(t)| + 1
    ensures Pow2(Height(t) / 2) <= |InOrder(t)| + 1
  {
    HeightBound(t);
    SizeBound(t);
    Pow2Monotone(Height(t) / 2, BlackHeight(t));
  }

  function Blacken(t: Tree): Tree
  {
    if t.Leaf? then t else t.(color := Black)
  }

  lemma Plug2(t: Tree, path: Path)
    requires |path| >= 2
    ensures Plug(t, path) == Plug(Attach(Attach(t, path[0]), path[1]), path[2..])
  {
    assert path[1..][0] == path[1] && path[1..][1..] == path[2..];
  }

  lemma {:induction false} BalancedSub(t: Tree, path: Path)
    requires Balanced(Plug(t, path))
    ensures Balanced(t)
    decreases |path|
  {
    if path != [] {
      BalancedSub(Attach(t, path[0]), path[1..]);
    }
  }

  /** A subtree may be replaced by a balanced one of the same black height. */
  lemma {:induction false} BalancedReplace(t: Tree, u: Tree, path: Path)
    requires Balanced(Plug(t, path)) && Balanced(u) && BlackHeight(u) == BlackHeight(t)
    ensures Balanced(Plug(u, path))
    decreases |path|
  {
    if path != [] {
      BalancedSub(Attach(t, path[0]), path[1..]);
      BalancedReplace(Attach(t, path[0]), Attach(u, path[0]), path[1..]);
    }
  }

  lemma {:induction false} NoRedRedSub(t: Tree, path: Path)
    requires NoRedRed(Plug(t, path))
    ensures NoRedRed(t)
    decreases |path|
  {
    if path != [] {
      NoRedRedSub(Attach(t, path[0]), path[1..]);
    }
  }

  /** A subtree may be replaced by one without red-red pairs whose top is red
      only where the old top was red or the parent is black. */
  lemma {:induction false} NoRedRedReplace(t: Tree, u: Tree, path: Path)
    requires NoRedRed(Plug(t, path)) && NoRedRed(u)
    requires ColorOf(u) == Red ==> ColorOf(t) == Red || (path != [] && path[0].color == Black)
    ensures NoRedRed(Plug(u, path))
    decreases |path|
  {
    if path != [] {
      NoRedRedSub(Attach(t, path[0]), path[1..]);
      NoRedRedReplace(Attach(t, path[0]), Attach(u, path[0]), path[1..]);
    }
  }

  /** Every key of `s` is at most `k`. */
  ghost predicate AllAtMost(s: seq<int>, k: int)
  {
    forall v | v in s :: v <= k
  }

  /** Every key of `s` is greater than `k`. */
  ghost predicate AllAbove(s: seq<int>, k: int)
  {
    forall v | v in s :: k < v
  }

  /** In a sorted sequence, the keys just before an element are at most it
      and the keys just after it are at least it. */
  lemma SortedMiddle(p: seq<int>, l: seq<int>, k: int, r: seq<int>, q: seq<int>)
    requires Sorted(p + (l + [k] + r) + q)
    ensures forall v | v in l :: v <= k
    ensures forall v | v in r :: k <= v
  {
    var s := p + (l + [k] + r) + q;
    assert s[|p| + |l|] == k;
    forall v | v in l
      ensures v <= k
    {
      var i :| 0 <= i < |l| && l[i] == v;
      assert s[|p| + i] == v;
    }
    forall v | v in r
      ensures k <= v
    {
      var i :| 0 <= i < |r| && r[i] == v;
      assert s[|p| + |l| + 1 + i] == v;
    }
  }

  /**
   * The in-order keys after inserting `k` into a tree with keys `s`: `k` goes
   * after every key at most `k` met from the left and before the first greater
   * one (ties go right). Which node holds which equal key is stated on the
   * nodes themselves, by `RedBlackTree.Insert` with `InsertIndex`.
   */
  function InsertKey(s: seq<int>, k: int): (r: seq<int>)
    ensures multiset(r) == multiset(s) + multiset{k}
  {
    if s == [] || k < s[0] then [k] + s
    else
      assert s == [s[0]] + s[1..];
      [s[0]] + InsertKey(s[1..], k)
  }

  /** A key no greater than every key of a sorted sequence may go in front. */
  lemma SortedCons(x: int, s: seq<int>)
    requires Sorted(s) && forall v | v in s :: x <= v
    ensures Sorted([x] + s)
  {
    var q := [x] + s;
    forall i, j | 0 <= i < j < |q|
      ensures q[i] <= q[j]
    {
      assert q[j] == s[j - 1];
      if i > 0 {
        assert q[i] == s[i - 1];
      } else {
        assert s[j - 1] in s;
      }
    }
  }

  /** A sorted sequence keeps its head below every later key. */
  lemma SortedTail(s: seq<int>)
    requires Sorted(s) && s != []
    ensures Sorted(s[1..]) && forall v | v in s[1..] :: s[0] <= v
  {
    forall v | v in s[1..]
      ensures s[0] <= v
    {
      var i :| 0 <= i < |s[1..]| && s[1..][i] == v;
      assert s[i + 1] == v;
    }
  }

  /** Inserting into a sorted sequence keeps it sorted. */
  lemma {:induction false} InsertKeySorted(s: seq<int>, k: int)
    requires Sorted(s)
    ensures Sorted(InsertKey(s, k))
  {
    if s == [] {
      SortedCons(k, s);
    } else {
      SortedTail(s);
      if k < s[0] {
        SortedCons(k, s);
      } else {
        var t := s[1..];
        InsertKeySorted(t, k);
        var r := InsertKey(t, k);
        assert multiset(r) == multiset(t) + multiset{k};
        forall v | v in r
          ensures s[0] <= v
        {
          assert v in multiset(r);
          assert v == k || v in multiset(t);
        }
        SortedCons(s[0], r);
      }
    }
  }

  /** The position `InsertKey` gives `k`: past every leading element at most `k`. */
  function InsertIndex(s: seq<int>, k: int): (i: nat)
    ensures i <= |s|
  {
    if s == [] || k < s[0] then 0 else InsertIndex(s[1..], k) + 1
  }

  /** `InsertKey` puts `k` at `InsertIndex` and leaves the rest in order. */
  lemma {:induction false} InsertKeyAt(s: seq<int>, k: int)
    ensures InsertKey(s, k) == s[..InsertIndex(s, k)] + [k] + s[InsertIndex(s, k)..]
  {
    if s == [] || k < s[0] {
      assert s[..0] == [] && s[0..] == s;
    } else {
      var t, i := s[1..], InsertIndex(s[1..], k);
      InsertKeyAt(t, k);
      var a := [s[0]] + t[..i];
      assert a == s[..i + 1] && t[i..] == s[i + 1..];
      assert [s[0]] + (t[..i] + [k] + t[i..]) == a + [k] + t[i..];
    }
  }

  /** Every key before the insertion position is at most `k`; in a sorted
      sequence every key from it on is greater than `k`. */
  lemma {:induction false} InsertIndexBounds(s: seq<int>, k: int)
    ensures forall j | 0 <= j < InsertIndex(s, k) :: s[j] <= k
    ensures Sorted(s) ==> forall j | InsertIndex(s, k) <= j < |s| :: k < s[j]
  {
    if s != [] && s[0] <= k {
      InsertIndexBounds(s[1..], k);
      assert forall j | 1 <= j < InsertIndex(s, k) :: s[j] == s[1..][j - 1];
      if Sorted(s) {
        assert Sorted(s[1..]);
      }
    }
  }

  /** When the keys split into those at most `k` and those above `k`, the
      insertion position is the split. */
  lemma {:induction false} InsertIndexSplit(a: seq<int>, b: seq<int>, k: int)
    requires AllAtMost(a, k) && AllAbove(b, k)
    ensures InsertIndex(a + b, k) == |a|
  {
    if a == [] {
      assert a + b == b;
      if b != [] {
        assert b[0] in b;
      }
    } else {
      var s := a + b;
      assert s[0] == a[0] && s[1..] == a[1..] + b;
      assert a[0] in a;
      assert forall v | v in a[1..] :: v in a;
      InsertIndexSplit(a[1..], b, k);
    }
  }

  /** When `s` splits into keys at most `k` and keys greater than `k`,
      inserting `k` puts it exactly at the split. */
  lemma {:induction false} InsertKeySplit(a: seq<int>, b: seq<int>, k: int)
    requires AllAtMost(a, k) && AllAbove(b, k)
    ensures InsertKey(a + b, k) == a + [k] + b
  {
    if a == [] {
      assert a + b == b && a + [k] + b == [k] + b;
      if b != [] {
        assert b[0] in b;
      }
    } else {
      var s := a + b;
      assert s[0] == a[0] && s[1..] == a[1..] + b;
      assert a[0] in a;
      assert InsertKey(s, k) == [a[0]] + InsertKey(a[1..] + b, k);
      assert forall v | v in a[1..] :: v in a;
      InsertKeySplit(a[1..], b, k);
      assert [a[0]] + (a[1..] + [k] + b) == a + [k] + b;
    }
  }

  /** Every key of `s` is at least `k`. */
  ghost predicate AllAtLeast(s: seq<int>, k: int)
  {
    forall v | v in s :: k <= v
  }

  /** In a tree whose in-order keys are sorted, the keys of a node's left
      subtree are at most its key and those of its right subtree at least it. */
  lemma SortedSplit(t: Tree, path: Path)
    requires t.Branch? && Sorted(InOrder(Plug(t, path)))
    ensures AllAtMost(InOrder(t.left), t.key) && AllAtLeast(InOrder(t.right), t.key)
  {
    InOrderPlug(t, path);
    SortedMiddle(PathLeft(path), InOrder(t.left), t.key, InOrder(t.right), PathRight(path));
  }

  /** One step of the descent of `insert`: going left below a key greater than
      `k`, or right below a key at most `k`, keeps every key before the hole at
      most `k` and every key after it greater than `k`. */
  lemma DescendStep(t: Tree, path: Path, k: int)
    requires t.Branch? && Sorted(InOrder(Plug(t, path)))
    requires AllAtMost(PathLeft(path), k) && AllAbove(PathRight(path), k)
    ensures k < t.key ==>
      AllAtMost(PathLeft(Down(t, OnLeft, path)), k) && AllAbove(PathRight(Down(t, OnLeft, path)), k)
    ensures t.key <= k ==>
      AllAtMost(PathLeft(Down(t, OnRight, path)), k) && AllAbove(PathRight(Down(t, OnRight, path)), k)
  {
    SortedSplit(t, path);
    if k < t.key {
      var d := Down(t, OnLeft, path);
      assert d[0].side == OnLeft && d[1..] == path && d[0].sibling == t.right;
      assert PathLeft(d) == PathLeft(path);
      var r := PathRight(d);
      assert r == [t.key] + InOrder(t.right) + PathRight(path);
      forall v | v in r
        ensures k < v
      {
        if v in InOrder(t.right) {
          assert t.key <= v;
        }
      }
    } else {
      var d := Down(t, OnRight, path);
      assert d[0].side == OnRight && d[1..] == path && d[0].sibling == t.left;
      assert PathRight(d) == PathRight(path);
      var l := PathLeft(d);
      assert l == PathLeft(path) + InOrder(t.left) + [t.key];
      forall v | v in l
        ensures v <= k
      {
        if v in InOrder(t.left) {
          assert v <= t.key;
        }
      }
    }
  }

  /** In a tree whose in-order keys are sorted, a key below a node's key is
      not in its right subtree and a key above it is not in its left subtree,
      so the descent of `search` never passes the key by. */
  lemma SearchStep(t: Tree, path: Path, k: int)
    requires t.Branch? && Sorted(InOrder(Plug(t, path)))
    ensures k < t.key ==> k !in InOrder(t.right)
    ensures t.key < k ==> k !in InOrder(t.left)
  {
    SortedSplit(t, path);
  }

  /** The ordering "keys of a left subtree are below the node's key, keys of
      a right subtree are at least it", which the descent of `insert` follows. */
  ghost predicate TiesRight(t: Tree)
  {
    t.Branch? ==>
      (forall v | v in InOrder(t.left) :: v < t.key) &&
      (forall v | v in InOrder(t.right) :: t.key <= v) &&
      TiesRight(t.left) && TiesRight(t.right)
  }

  /** With equal keys the left rotation of the fix-up does not keep
      `TiesRight`: after inserting 5, 5 and 5 the nodes form a right chain, and
      rotating its top left puts a 5 in the left subtree of a 5. The in-order
      sequence, and so sortedness, is kept. */
  lemma RotationBreaksTiesRight(a: Node, b: Node, c: Node)
    ensures var t := Branch(Leaf, a, 5, Red, Branch(Leaf, b, 5, Black, Branch(Leaf, c, 5, Red, Leaf)));
      TiesRight(t) && !TiesRight(RotateLeft(t)) && InOrder(RotateLeft(t)) == InOrder(t)
  {
    var t := Branch(Leaf, a, 5, Red, Branch(Leaf, b, 5, Black, Branch(Leaf, c, 5, Red, Leaf)));
    var r := RotateLeft(t);
    assert InOrder(r.left) == [5];
    assert 5 in InOrder(r.left);
  }
}
