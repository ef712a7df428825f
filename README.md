# Red-black tree of integer keys

This project models the red-black tree in `red_black_tree.py`. The tree is an
ordered store of integer keys. Every absent child is one shared black sentinel
node, `TNULL`, and the parent of the root is `None`. The operations modelled are:

- `insert`: a plain binary-search-tree descent where equal keys go right, then
  hanging a red leaf;
- `fix_insert`: recolouring and rotating until no red node has a red parent;
- `left_rotate` and `right_rotate`;
- `search` and its recursive helper `_search_tree_helper`;
- `delete_node` and `_delete_node_helper`, whose body is empty.

The model keeps the source's form. The module layout is:

- `node.dfy`: module `RbNode`, the `Node` class with mutable `key`, `color`,
  `left`, `right` and `parent` fields (`null` is Python's `None`).
- `red_black_tree.dfy`: module `RedBlackTrees`, the `RedBlackTree` class. It
  holds the sentinel `tnull` and the field `root`. Insertion, the fix-up and the
  rotations are methods that write node fields in place, in the order the
  source writes them. Both `while` loops of the source are `while` loops here,
  with their invariants. Search is a recursive function that reads the heap.
- `shape.dfy`: module `RbShape`, the ghost picture. `Tree` is a value tree whose
  branches name the node objects holding them. A `Path` is the list of frames
  from a subtree up to the root, the way the source walks `parent` links.
- `links.dfy`: module `RbLinks`, the fields each node must hold for the heap to
  realise a picture, and how a rotation, a recolouring or an attachment changes
  them.
- `properties.dfy`: module `RbProperties`, the red-black invariants, sorted
  keys, and `InsertKey`, the reference definition of the key sequence after an
  insertion.
- `fixup_steps.dfy`: module `RbFixupSteps`, the loop invariant of `fix_insert`
  and one lemma per branch of its body.

The class keeps two ghost fields, `shape` (the picture) and `Repr` (the real
nodes). `Linked()` says the heap realises the picture:

- every node in `Repr` holds exactly the key, colour and links the picture
  gives it;
- `root` is the picture's top node;
- the sentinel is black with no links set.

`Valid()` adds the invariants kept between calls:

- the in-order keys are sorted (non-decreasing);
- the root is black;
- no red node has a red child;
- every node's two subtrees have the same black height.

Some source functions are split into helper methods, each covering a
consecutive group of source lines: `NewNode`, `FindParent`, `Hang` and
`FinishInsert` for `insert`, and `RecolorUncle`, `RotateInnerRight/Left` and
`RecolorRotateLeft/Right` for the loop body of `fix_insert`. Each rotation is a heap-level method
(`LeftRotate`, `RightRotate`) wrapped by a method that proves the picture
follows (`RotateLeftAt`, `RotateRightAt`).

Ordering: the code is followed. Descent sends a key equal to the node's key to
the right, but the left rotation of the fix-up can later place an equal key in
a left subtree (`RbProperties.RotationBreaksTiesRight`). So the model proves the
ordering the code actually keeps: the in-order key sequence is non-decreasing.
Equal keys are told apart by the nodes holding them. The ghost function
`Order()` lists the node objects in in-order sequence. Rotations and
recolourings leave it unchanged. `insert` adds its new node at position
`InsertIndex(old keys, key)`: after every node whose key is at most `key`, so
after every equal key already present, and before every greater one. Equal keys
therefore stay in insertion order. The strict form, "left keys below, right
keys at or above", does not survive rotations.

Balance: `RbProperties.HeightBound` and `RbProperties.SizeBound` are the two
facts behind the logarithmic height. `RbProperties.HeightLogarithmic` combines
them: a tree of `n` keys has height at most about `2 log2(n + 1)`.

## Model

| member | source | states |
|---|---|---|
| RbNode.Node.constructor | red_black_tree.py:3-9 | a new node holds the given key and colour (red by default) and has no links |
| RedBlackTrees.RedBlackTree.constructor | red_black_tree.py:12-15 | a new tree is valid and empty: `root` is the sentinel, the sentinel is black, no keys, no nodes |
| RedBlackTrees.RedBlackTree.Insert | red_black_tree.py:17-50 | the tree stays valid (sorted, black root, no red-red, equal black heights); the new key sequence is `InsertKey` of the old one; the key multiset gains exactly one `key`; exactly one fresh node holding `key` is added, and it enters the in-order node sequence at `InsertIndex(old keys, key)`, after every node with key at most `key`, with the old nodes in their old order; the root is then a real black node |
| RedBlackTrees.RedBlackTree.InsertedKey | red_black_tree.py:17-50 | the node placed at the insertion position of the node sequence is a tree node holding the inserted key |
| RedBlackTrees.RedBlackTree.BlackRoot | red_black_tree.py:82 | a valid tree with keys has a real root, and that root is black, as the final blackening (here, and at red_black_tree.py:44 for a first node) leaves it |
| RedBlackTrees.RedBlackTree.OrderKeys | red_black_tree.py:3-9 | the `j`-th node in in-order sequence is a tree node whose `key` field is the `j`-th key |
| RbLinks.InOrderNodesFields | red_black_tree.py:3-9 | the `j`-th in-order node of a picture is one of its nodes, and the fields the picture gives it hold the `j`-th in-order key |
| RedBlackTrees.RedBlackTree.NewNode | red_black_tree.py:18-23 | the new node is fresh, red, holds `key`, has sentinel children and a `null` parent |
| RedBlackTrees.RedBlackTree.FindParent | red_black_tree.py:25-33 | the descent ends at a sentinel whose path splits the keys: all before it are at most `key`, all after it greater; `y` is that sentinel's parent, `null` exactly when the tree is empty; otherwise `y` is a tree node whose child on the side `key < y.key` selects is the sentinel; nothing is written |
| RbProperties.DescendStep | red_black_tree.py:28-33 | one step of the descent loop keeps the split of keys at most `key` / greater than `key` around the current position |
| RedBlackTrees.RedBlackTree.Hang | red_black_tree.py:35-41 | the new node's parent becomes `y`; `root` becomes the node if `y` is `null`, otherwise `y`'s left or right slot, as `node.key < y.key` decides; nothing else of `y` changes |
| RedBlackTrees.RedBlackTree.AttachAt | red_black_tree.py:35-41 | after hanging the node the heap realises the old picture with the sentinel replaced by the new red leaf; `Repr` gains exactly the new node |
| RedBlackTrees.RedBlackTree.RelinkAttach | red_black_tree.py:35-41 | the field writes of the attachment make every node hold what the new picture gives it |
| RbLinks.AttachPlugFields | red_black_tree.py:35-41 | attaching changes exactly the new node's fields and its parent's child slot |
| RbFixupSteps.InsertPlug | red_black_tree.py:25-41 | hanging the red leaf where the descent ends gives in-order keys `InsertKey(old, key)`, sorted, and establishes the fix-up invariant |
| RbFixupSteps.InsertPlugOrder | red_black_tree.py:25-41 | hanging the new node where the descent ends inserts it into the in-order node sequence at `InsertIndex(old keys, key)`, the other nodes keeping their order |
| RbProperties.InsertKey | red_black_tree.py:28-41 | reference key sequence after insertion; its multiset is the old one plus one `key` |
| RbProperties.InsertKeySorted | red_black_tree.py:28-41 | inserting into a sorted sequence keeps it sorted |
| RbProperties.InsertKeySplit | red_black_tree.py:28-41 | when the keys split into those at most `k` and those above `k`, insertion places `k` exactly at the split |
| RbProperties.InsertKeyAt | red_black_tree.py:28-41 | `InsertKey` is the old sequence with `k` placed at `InsertIndex`, the rest unchanged and in order |
| RbProperties.InsertIndexBounds | red_black_tree.py:28-33 | every key before the insertion position is at most `k`; in a sorted sequence every key from it on is greater than `k` |
| RbProperties.InsertIndexSplit | red_black_tree.py:28-33 | when the keys split into those at most `k` and those above `k`, the insertion position is the split |
| RbFixupSteps.FixStart | red_black_tree.py:35-41 | a new red leaf in a red-black tree satisfies the fix-up loop invariant |
| RedBlackTrees.RedBlackTree.FinishInsert | red_black_tree.py:43-50 | a new root is blackened, a child of the root needs nothing, otherwise `fix_insert` runs; the tree ends valid with the keys and the node order unchanged |
| RedBlackTrees.RedBlackTree.FixInsert | red_black_tree.py:52-82 | from the fix-up invariant the loop ends with no red node having a red child, equal black heights, a black root, the same keys and the same nodes in the same in-order sequence |
| RbProperties.HeightBound | red_black_tree.py:52-82 | with no red-red pair and equal black heights, the height is at most twice the black height, plus one for a red top |
| RbProperties.SizeBound | red_black_tree.py:52-82 | with equal black heights, a tree holds at least `2^(black height) - 1` keys |
| RbProperties.HeightLogarithmic | red_black_tree.py:52-82 | a red-black tree of `n` keys has height at most twice its black height `b`, with `2^b <= n + 1`; hence `2^(height / 2) <= n + 1` |
| RbFixupSteps.ParentRed | red_black_tree.py:53-54 | while the parent is red a grandparent exists and it is black |
| RedBlackTrees.RedBlackTree.RecolorUncle | red_black_tree.py:56-60 | red uncle: the parent and uncle turn black and the grandparent red; the invariant holds two levels up, at the grandparent; keys and node order are unchanged |
| RbFixupSteps.CaseRedUncle | red_black_tree.py:56-60 | the red-uncle recolouring moves the fix-up invariant to the grandparent |
| RbFixupSteps.CaseInner | red_black_tree.py:62-64 | inner case: moving to the parent and rotating there yields the outer case one level down, with the invariant kept |
| RedBlackTrees.RedBlackTree.RotateInnerRight | red_black_tree.py:62-64 | inner case on the right: `node` becomes its old parent and the tree becomes the old one rotated right there; the invariant holds in the outer case, with the same keys and node order |
| RedBlackTrees.RedBlackTree.RotateInnerLeft | red_black_tree.py:76-78 | the mirror inner case on the left: `node` becomes its old parent and the tree becomes the old one rotated left there |
| RedBlackTrees.RedBlackTree.RecolorRotateLeft | red_black_tree.py:65-67 | outer case on the right: parent black, grandparent red, left rotation at the grandparent; the invariant holds with a black parent; keys and node order are unchanged |
| RedBlackTrees.RedBlackTree.RecolorRotateRight | red_black_tree.py:79-81 | the mirror case on the left, with a right rotation |
| RbFixupSteps.CaseOuter | red_black_tree.py:65-67 | the outer-case recolouring and rotation keep the invariant and leave a black parent, so the loop stops |
| RbFixupSteps.FixExit | red_black_tree.py:82 | when the loop stops, blackening the root gives no red-red pair and equal black heights |
| RedBlackTrees.RedBlackTree.SetColor | red_black_tree.py:57-59 | a colour assignment keeps the heap realising the picture, recoloured at that node, and keeps the keys and the node order |
| RedBlackTrees.RedBlackTree.LeftRotate | red_black_tree.py:84-98 | the exact field writes of `left_rotate`: x, its right child y, y's former left child (unless the sentinel) and x's former parent slot or `root` change, as stated; the sentinel is never written |
| RedBlackTrees.RedBlackTree.RotateLeftAt | red_black_tree.py:84-98 | `left_rotate` keeps the heap realising the picture, now rotated at x, with the same in-order keys and the same in-order nodes |
| RbShape.RotateLeft | red_black_tree.py:84-98 | the rotated picture has the same in-order keys, the same in-order node sequence and the same nodes, and stays free of repeated nodes |
| RbLinks.RotateLeftPlugFields | red_black_tree.py:84-98 | in the whole tree a left rotation changes exactly the fields `left_rotate` writes |
| RedBlackTrees.RedBlackTree.RelinkLeft | red_black_tree.py:84-98 | the fields after `left_rotate` are those of the rotated picture, whose keys are the old ones |
| RedBlackTrees.RedBlackTree.RightRotate | red_black_tree.py:100-114 | the mirror field writes of `right_rotate` |
| RedBlackTrees.RedBlackTree.RotateRightAt | red_black_tree.py:100-114 | `right_rotate` keeps the heap realising the picture, rotated at x, with the same keys and node order |
| RbShape.RotateRight | red_black_tree.py:100-114 | the rotated picture has the same in-order keys, in-order node sequence and nodes |
| RbLinks.RotateRightPlugFields | red_black_tree.py:100-114 | a right rotation changes exactly the fields `right_rotate` writes |
| RedBlackTrees.RedBlackTree.RelinkRight | red_black_tree.py:100-114 | the fields after `right_rotate` are those of the rotated picture |
| RedBlackTrees.RedBlackTree.Search | red_black_tree.py:116-117 | returns the sentinel exactly when `key` is absent, otherwise a tree node holding `key`; reads only |
| RedBlackTrees.RedBlackTree.SearchTreeHelper | red_black_tree.py:119-124 | on the subtree at `node`: the sentinel exactly when `key` is not among its keys, otherwise one of its nodes holding `key` |
| RbProperties.SearchStep | red_black_tree.py:122-124 | with sorted keys, a key below a node's key is not in its right subtree and one above it is not in its left subtree |
| RbProperties.RotationBreaksTiesRight | red_black_tree.py:30-33 | after inserting 5, 5, 5 the left rotation breaks "left keys below the node's key" while keeping the in-order keys |
| RedBlackTrees.RedBlackTree.DeleteNode | red_black_tree.py:126-127 | nothing in the tree changes, whatever the key |
| RedBlackTrees.RedBlackTree.DeleteNodeHelper | red_black_tree.py:129-131 | the empty body changes nothing |

## Left out

- `project.py` is not part of this model. It holds the user interface, data loading, a Bayesian network, floating-point arithmetic and drawing, and a seat loop that only calls `search` and the empty delete.
- Colours are the enumeration `Red | Black`, not the strings `'red'` and `'black'`.
- The sentinel's key 0 is kept, but no property depends on it: search compares against the sentinel before it reads a key.
- Python object identity and garbage collection are not modelled. Node objects are Dafny references.
- RedBlackTrees.RedBlackTree.FixInsert: requires the state `insert` leaves before calling it, namely a new red node in an otherwise red-black tree. A call on an arbitrary node is not modelled.
- RedBlackTrees.RedBlackTree.Search: requires a valid tree. The result on a heap that breaks the invariants is not stated.
- RedBlackTrees.RedBlackTree.Insert: requires a valid tree, which every tree built by the constructor and `insert` is. Insertion into a hand-broken heap is not modelled.
- RedBlackTrees.RedBlackTree.LeftRotate: requires x's right child to be a real node, and RightRotate requires x's left child to be one. On the sentinel the source raises `AttributeError` (red_black_tree.py:85-88, 101-104), which is not modelled; `fix_insert` never rotates there.
- The search's recursion depth, bounded in Python by the interpreter's recursion limit, is not modelled.
- There is no full delete and no minimum operation: `_delete_node_helper` is empty and the source has no minimum, so the model follows the code.
