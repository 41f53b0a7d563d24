/** The recursive mutators of struct Node (RedBlackTree.h:239-355): Insert, Delete (top-down
    deletion with a successor swap) and DeleteMin. The source rewrites the subtree in its
    unique_ptr slot and adjusts LeftSize with ++ and -=; each method here takes the subtree
    and returns the one the slot holds afterwards, with the success flag. */
module Mutation {
  import opened RedBlackNode
  import opened Balancing

  /** A subtree that is not a 2-node: absent, red, or with a red child. Delete and DeleteMin
      only ever descend into such subtrees below the root, which is what lets them remove
      a node without shortening a black path. */
  predicate NotTwoNode(t: Tree) {
    t.Leaf? || IsRed(t) || IsRed(t.left) || IsRed(t.right)
  }

  /** The shapes Delete is entered with: the root of a tree of root shape, or a subtree
      below it that the descent has prepared. A red right child only arises from
      MoveRedRight's rotation, on a black node whose item is not above the one sought. */
  ghost predicate DeletePre(t: Tree, x: int) {
    t.Leaf? ||
    (Llrb(t.left) && Llrb(t.right) &&
     (IsRed(t.right) ==> !IsRed(t) && !IsRed(t.left) && t.item <= x))
  }

  /** What Insert promises about the subtree it returns for `t`, with `x` the item inserted;
      the recursion relies on it for the child it descended into. */
  ghost predicate Inserted(t: Tree, x: int, r: Tree, inserted: bool) {
    r.Node? && Valid(r) &&
    (inserted <==> x !in Elements(t)) &&
    Elements(r) == Elements(t) + {x} &&
    Size(r) == Size(t) + (if inserted then 1 else 0) &&
    (!RedRed(t) ==> LinkHeight(r) == LinkHeight(t)) &&
    (!IsRed(t) ==> Llrb(r)) &&
    (IsRed(t) && !IsRed(t.left) ==> IsRed(r))
  }

  /** A new red leaf is what inserting into an absent child gives. */
  lemma InsertIntoLeaf(x: int)
    ensures Inserted(Leaf, x, Node(Red, 0, Leaf, x, Leaf), true)
  {
    var r := Node(Red, 0, Leaf, x, Leaf);
    assert Inorder(r) == [x];
    assert SizesOk(r) && Ordered(r) && Balanced(r) && RootShape(r);
  }

  /** Inserting the item a node already holds changes nothing. */
  lemma InsertPresent(t: Tree)
    requires t.Node? && Valid(t)
    ensures Inserted(t, t.item, t, false)
  {
    ElementsNode(t);
    LlrbIsRootShape(t);
  }

  /** The subtrees of a valid tree are valid. */
  lemma ChildrenValid(t: Tree)
    requires t.Node? && Valid(t)
    ensures Valid(t.left) && Valid(t.right)
  {
    OrderedNode(t);
    LlrbIsRootShape(t.left);
    LlrbIsRootShape(t.right);
  }

  /** Adding an item below a node's item to its left subtree adds it to the node's subtree;
      the counter stays right when it grows with the insertion. */
  lemma AddedLeft(n: Tree, x: int, l: Tree, inserted: bool)
    requires n.Node? && SizesOk(n) && Ordered(n) && x < n.item
    requires SizesOk(l) && Ordered(l) && (inserted <==> x !in Elements(n.left))
    requires Elements(l) == Elements(n.left) + {x} && Size(l) == Size(n.left) + (if inserted then 1 else 0)
    ensures var m := n.(left := l, leftSize := n.leftSize + (if inserted then 1 else 0));
      SizesOk(m) && Ordered(m) && (inserted <==> x !in Elements(n)) &&
      Elements(m) == Elements(n) + {x} && Size(m) == Size(n) + (if inserted then 1 else 0)
  {
    assert forall e :: e in Elements(l) ==> e < n.item by {
      OrderedSides(n);
    }
    assert inserted <==> x !in Elements(n) by {
      Descend(n, x);
    }
    var m := n.(left := l, leftSize := n.leftSize + (if inserted then 1 else 0));
    ReplaceLeft(n, l, m.leftSize);
    assert Elements(m) == Elements(n) + {x} by {
      ElementsNode(n);
    }
  }

  /** The mirror image of AddedLeft, for an item above the node's item. */
  lemma AddedRight(n: Tree, x: int, rt: Tree, inserted: bool)
    requires n.Node? && SizesOk(n) && Ordered(n) && n.item < x
    requires SizesOk(rt) && Ordered(rt) && (inserted <==> x !in Elements(n.right))
    requires Elements(rt) == Elements(n.right) + {x} && Size(rt) == Size(n.right) + (if inserted then 1 else 0)
    ensures var m := n.(right := rt);
      SizesOk(m) && Ordered(m) && (inserted <==> x !in Elements(n)) &&
      Elements(m) == Elements(n) + {x} && Size(m) == Size(n) + (if inserted then 1 else 0)
  {
    assert forall e :: e in Elements(rt) ==> n.item < e by {
      OrderedSides(n);
    }
    assert inserted <==> x !in Elements(n) by {
      Descend(n, x);
    }
    ReplaceRight(n, rt);
    assert Elements(n.(right := rt)) == Elements(n) + {x} by {
      ElementsNode(n);
    }
  }

  /** Colours and black heights on Insert's way back from the left child. */
  lemma InsertLeftShape(t: Tree, l: Tree, k: int)
    requires t.Node? && Balanced(t) && RootShape(t)
    requires l.Node? && Balanced(l) && RootShape(l)
    requires !RedRed(t.left) ==> LinkHeight(l) == LinkHeight(t.left)
    requires !IsRed(t.left) ==> Llrb(l)
    requires IsRed(t.left) && !IsRed(t.left.left) ==> IsRed(l)
    ensures var r := Fixup(t.(left := l, leftSize := k));
      Balanced(r) && RootShape(r) &&
      (!RedRed(t) ==> LinkHeight(r) == LinkHeight(t)) &&
      (!IsRed(t) ==> Llrb(r)) &&
      (IsRed(t) && !IsRed(t.left) ==> IsRed(r))
  {
    var node := t.(left := l, leftSize := k);
    FixupBalance(node);
    LlrbIsRootShape(Fixup(node));
  }

  /** Colours and black heights on Insert's way back from the right child. */
  lemma InsertRightShape(t: Tree, rt: Tree)
    requires t.Node? && Balanced(t) && RootShape(t)
    requires rt.Node? && Balanced(rt) && RootShape(rt)
    requires !RedRed(t.right) ==> LinkHeight(rt) == LinkHeight(t.right)
    requires !IsRed(t.right) ==> Llrb(rt)
    ensures var r := Fixup(t.(right := rt));
      Balanced(r) && RootShape(r) &&
      (!RedRed(t) ==> LinkHeight(r) == LinkHeight(t)) &&
      (!IsRed(t) ==> Llrb(r)) &&
      (IsRed(t) && !IsRed(t.left) ==> IsRed(r))
  {
    var node := t.(right := rt);
    FixupBalance(node);
    LlrbIsRootShape(Fixup(node));
  }

  /** The way back from the left child: the counter grows when the item was new, then Fixup. */
  lemma InsertLeftStep(t: Tree, x: int, l: Tree, inserted: bool)
    requires t.Node? && Valid(t) && x < t.item
    requires Inserted(t.left, x, l, inserted)
    ensures Inserted(t, x, Fixup(t.(left := l, leftSize := t.leftSize + (if inserted then 1 else 0))), inserted)
  {
    var node := t.(left := l, leftSize := t.leftSize + (if inserted then 1 else 0));
    AddedLeft(t, x, l, inserted);
    SameInorder(node, Fixup(node));
    InsertLeftShape(t, l, node.leftSize);
  }

  /** The way back from the right child: Fixup. */
  lemma InsertRightStep(t: Tree, x: int, rt: Tree, inserted: bool)
    requires t.Node? && Valid(t) && t.item < x
    requires Inserted(t.right, x, rt, inserted)
    ensures Inserted(t, x, Fixup(t.(right := rt)), inserted)
  {
    var node := t.(right := rt);
    AddedRight(t, x, rt, inserted);
    SameInorder(node, Fixup(node));
    InsertRightShape(t, rt);
  }

  /** Node::Insert on a non-empty subtree. A new item becomes a red leaf; the LeftSize of
      every node the item went left at grows by one; Fixup runs on every node on the way
      back. An item already present is reported with false. */
  method Insert(t: Tree, x: int) returns (r: Tree, inserted: bool)
    requires t.Node? && Valid(t)
    ensures Inserted(t, x, r, inserted)
    decreases t
  {
    if t.item == x {
      InsertPresent(t);
      return t, false;
    }
    ChildrenValid(t);
    var node := t;
    if x < node.item {
      var l;
      if node.left.Leaf? {
        InsertIntoLeaf(x);
        l, inserted := Node(Red, 0, Leaf, x, Leaf), true;
      } else {
        l, inserted := Insert(node.left, x);
      }
      InsertLeftStep(node, x, l, inserted);
      node := node.(left := l, leftSize := node.leftSize + (if inserted then 1 else 0));
    } else {
      var rt;
      if node.right.Leaf? {
        InsertIntoLeaf(x);
        rt, inserted := Node(Red, 0, Leaf, x, Leaf), true;
      } else {
        rt, inserted := Insert(node.right, x);
      }
      InsertRightStep(node, x, rt, inserted);
      node := node.(right := rt);
    }
    r := Fixup(node);
  }

  /** The in-place write `rightMin->Item = item` of Node::Delete: the leftmost item of the
      subtree is replaced, nothing else changes. */
  function SetMin(t: Tree, x: int): (r: Tree)
    requires t.Node?
    ensures r.Node? && Inorder(r) == [x] + Inorder(t)[1..]
    ensures r.colour == t.colour && r.leftSize == t.leftSize && IsRed(r.left) == IsRed(t.left)
    ensures BlackHeight(r) == BlackHeight(t) && Balanced(r) == Balanced(t)
    ensures Llrb(r) == Llrb(t) && SizesOk(r) == SizesOk(t)
  {
    if t.left.Leaf? then t.(item := x) else t.(left := SetMin(t.left, x))
  }

  /** A left child that is a 2-node: present, black, with a black left child. Delete and
      DeleteMin make it borrow a red link before descending into it. */
  predicate LeftIsTwoNode(t: Tree)
    requires t.Node?
  {
    t.left.Node? && !IsRed(t.left) && !IsRed(t.left.left)
  }

  /** The subtree Delete and DeleteMin descend left from: a 2-node left child has borrowed
      a red link (MoveRedLeft). */
  function PrepareLeft(t: Tree): (r: Tree)
    requires t.Node?
    ensures r.Node? && Inorder(r) == Inorder(t) && (SizesOk(t) ==> SizesOk(r))
  {
    if LeftIsTwoNode(t) then MoveRedLeft(t) else t
  }

  /** The subtrees DeleteMin is applied to: non-empty, left-leaning, and red or with a red
      left child, so that the leftmost node can be removed without a black link. */
  ghost predicate DeleteMinPre(t: Tree) {
    t.Node? && SizesOk(t) && Balanced(t) && Llrb(t) && (IsRed(t) || IsRed(t.left))
  }

  /** What DeleteMin promises about the subtree `r` it returns for `t`. */
  ghost predicate MinDeleted(t: Tree, r: Tree)
    requires t.Node?
  {
    Inorder(r) == Inorder(t)[1..] && SizesOk(r) && Balanced(r) && Llrb(r) &&
    LinkHeight(r) == LinkHeight(t) && (!IsRed(t) ==> !IsRed(r))
  }

  /** After DeleteMin's MoveRedLeft, either the node has no left child and is a red leaf,
      or its left child qualifies for the recursion. */
  lemma DeleteMinPrepared(t: Tree, n: Tree)
    requires DeleteMinPre(t) && n == PrepareLeft(t)
    ensures n.Node? && Inorder(n) == Inorder(t)
    ensures n.left.Leaf? ==> MinDeleted(t, Leaf)
    ensures n.left.Node? ==> DeleteMinPre(n.left)
  {
    if LeftIsTwoNode(t) {
      MoveRedLeftBalance(t);
    } else if n.left.Leaf? {
      AbsentSibling(t);
    }
  }

  /** The way back in DeleteMin: the counter drops by one, then Fixup. */
  lemma DeleteMinStep(t: Tree, n: Tree, l: Tree)
    requires DeleteMinPre(t) && n == PrepareLeft(t)
    requires n.left.Node? && MinDeleted(n.left, l)
    ensures MinDeleted(t, Fixup(n.(left := l, leftSize := n.leftSize - 1)))
  {
    MinRemovedLeft(n, l);
    DeleteMinStepShape(t, n, l);
  }

  /** Dropping the first item of a node's left subtree drops the node's first item. */
  lemma MinRemovedLeft(n: Tree, l: Tree)
    requires n.Node? && n.left.Node? && SizesOk(n) && SizesOk(l) && Inorder(l) == Inorder(n.left)[1..]
    ensures var m := n.(left := l, leftSize := n.leftSize - 1);
      Inorder(m) == Inorder(n)[1..] && SizesOk(m)
  {
    assert Inorder(n) == Inorder(n.left) + [n.item] + Inorder(n.right);
  }

  /** Colours and black heights on DeleteMin's way back: Fixup restores the left-leaning
      shape and the black height seen from the parent. */
  lemma DeleteMinStepShape(t: Tree, n: Tree, l: Tree)
    requires DeleteMinPre(t) && n == PrepareLeft(t)
    requires n.left.Node? && Balanced(l) && Llrb(l) && LinkHeight(l) == LinkHeight(n.left)
    requires !IsRed(n.left) ==> !IsRed(l)
    ensures var r := Fixup(n.(left := l, leftSize := n.leftSize - 1));
      Balanced(r) && Llrb(r) && LinkHeight(r) == LinkHeight(t) && (!IsRed(t) ==> !IsRed(r))
  {
    if LeftIsTwoNode(t) {
      MoveRedLeftBalance(t);
    }
    var node := n.(left := l, leftSize := n.leftSize - 1);
    FixupBalance(node);
    LlrbIsRootShape(Fixup(node));
  }

  /** Node::DeleteMin on a non-empty subtree that is red or has a red left child: removes
      the leftmost node, and always reports success. */
  method DeleteMin(t: Tree) returns (r: Tree, deleted: bool)
    requires DeleteMinPre(t)
    ensures deleted
    ensures Inorder(r) == Inorder(t)[1..]
    ensures SizesOk(r) && Balanced(r) && Llrb(r) && LinkHeight(r) == LinkHeight(t)
    ensures !IsRed(t) ==> !IsRed(r)
    decreases Size(t)
  {
    var node := t;
    if !IsRed(node.left) && node.left.Node? && !IsRed(node.left.left) {
      node := MoveRedLeft(node);
    }
    DeleteMinPrepared(t, node);
    if node.left.Leaf? {
      return Leaf, true;
    }
    var l, _ := DeleteMin(node.left);
    DeleteMinStep(t, node, l);
    node := node.(left := l, leftSize := node.leftSize - 1);
    r := Fixup(node);
    deleted := true;
  }

  /** The first in-order item of a node is its own when it has no left child, and its left
      child's first item otherwise. */
  lemma Leftmost(t: Tree)
    requires t.Node?
    ensures Inorder(t)[0] == if t.left.Leaf? then t.item else Inorder(t.left)[0]
  {
    assert Inorder(t) == Inorder(t.left) + [t.item] + Inorder(t.right);
  }

  /** Removing a node's item by moving its successor up keeps the items ordered. */
  lemma SuccessorSwap(a: seq<int>, x: int, b: seq<int>)
    requires Sorted(a + [x] + b) && |b| > 0
    ensures Sorted(a + [b[0]] + b[1..])
    ensures (set e | e in a + [b[0]] + b[1..]) == (set e | e in a + [x] + b) - {x}
  {
    SortedJoin(a, x, b);
    assert [] + [b[0]] + b[1..] == b;
    SortedJoin([], b[0], b[1..]);
    assert b[0] in b;
    SortedJoin(a, b[0], b[1..]);
    var s := a + [x] + b;
    var s' := a + [b[0]] + b[1..];
    assert s == a + [x] + [b[0]] + b[1..];
    assert forall e :: e in s' <==> e in a || e == b[0] || e in b[1..];
    assert forall e :: e in s <==> e in a || e == x || e == b[0] || e in b[1..];
  }

  /** MoveRedLeft never brings an item smaller than the old top's to the top. */
  lemma MoveRedLeftTop(t: Tree)
    requires t.Node? && Ordered(t)
    ensures t.item <= MoveRedLeft(t).item
  {
    OrderedNode(t);
    if t.right.Node? && t.right.left.Node? {
      OrderedNode(t.right);
      ElementsNode(t.right);
      ElementsNode(t.right.left);
    }
  }

  /** What Delete requires of the subtree it is given. */
  ghost predicate DeleteReady(t: Tree, x: int) {
    SizesOk(t) && Ordered(t) && Balanced(t) && DeletePre(t, x)
  }

  /** What Delete promises about the subtree `r` it returns for `t`, with `x` the item to
      remove. The black height and the left-leaning shape are kept whenever `t` is not a
      2-node, which is how the descent leaves every subtree it enters. */
  ghost predicate Deleted(t: Tree, x: int, r: Tree, deleted: bool) {
    SizesOk(r) && Ordered(r) && Balanced(r) && RootShape(r) &&
    (deleted <==> x in Elements(t)) &&
    Elements(r) == Elements(t) - {x} &&
    Size(r) == Size(t) - (if deleted then 1 else 0) &&
    (NotTwoNode(t) ==> LinkHeight(r) == LinkHeight(t)) &&
    (NotTwoNode(t) && !RedRed(t) ==> Llrb(r)) &&
    (NotTwoNode(t) && !IsRed(t) ==> !IsRed(r))
  }

  /** Descending left in Delete: after MoveRedLeft the item is still below the top and the
      left child qualifies for the recursion. */
  lemma DeleteLeftPrepared(t: Tree, x: int)
    requires t.Node? && DeleteReady(t, x) && x < t.item
    ensures var n := PrepareLeft(t);
      Ordered(n) && x < n.item && DeleteReady(n.left, x) &&
      (x in Elements(t) <==> x in Elements(n.left))
  {
    var n := PrepareLeft(t);
    if LeftIsTwoNode(t) {
      MoveRedLeftBalance(t);
      MoveRedLeftTop(t);
    }
    SameInorder(t, n);
    OrderedNode(n);
    Descend(n, x);
  }

  /** Removing an item below a node's item from its left subtree removes it from the node's
      subtree; the counter stays right when it drops with the removal. */
  lemma RemovedLeft(n: Tree, x: int, l: Tree, deleted: bool)
    requires n.Node? && SizesOk(n) && Ordered(n) && x < n.item
    requires SizesOk(l) && Ordered(l) && (deleted <==> x in Elements(n.left))
    requires Elements(l) == Elements(n.left) - {x} && Size(l) == Size(n.left) - (if deleted then 1 else 0)
    ensures var m := n.(left := l, leftSize := n.leftSize - (if deleted then 1 else 0));
      SizesOk(m) && Ordered(m) && (deleted <==> x in Elements(n)) &&
      Elements(m) == Elements(n) - {x} && Size(m) == Size(n) - (if deleted then 1 else 0)
  {
    assert forall e :: e in Elements(l) ==> e < n.item by {
      OrderedSides(n);
    }
    assert deleted <==> x in Elements(n) by {
      Descend(n, x);
    }
    var m := n.(left := l, leftSize := n.leftSize - (if deleted then 1 else 0));
    ReplaceLeft(n, l, m.leftSize);
    assert Elements(m) == Elements(n) - {x} by {
      OrderedSides(n);
      ElementsNode(n);
    }
  }

  /** The mirror image of RemovedLeft, for an item above the node's item. */
  lemma RemovedRight(n: Tree, x: int, rt: Tree, deleted: bool)
    requires n.Node? && SizesOk(n) && Ordered(n) && n.item < x
    requires SizesOk(rt) && Ordered(rt) && (deleted <==> x in Elements(n.right))
    requires Elements(rt) == Elements(n.right) - {x} && Size(rt) == Size(n.right) - (if deleted then 1 else 0)
    ensures var m := n.(right := rt);
      SizesOk(m) && Ordered(m) && (deleted <==> x in Elements(n)) &&
      Elements(m) == Elements(n) - {x} && Size(m) == Size(n) - (if deleted then 1 else 0)
  {
    assert forall e :: e in Elements(rt) ==> n.item < e by {
      OrderedSides(n);
    }
    assert deleted <==> x in Elements(n) by {
      Descend(n, x);
    }
    ReplaceRight(n, rt);
    assert Elements(n.(right := rt)) == Elements(n) - {x} by {
      OrderedSides(n);
      ElementsNode(n);
    }
  }

  /** The way back from the left child in Delete: the counter drops when the item was
      removed below, then Fixup. */
  lemma DeleteLeftStep(t: Tree, x: int, n: Tree, l: Tree, deleted: bool)
    requires t.Node? && DeleteReady(t, x) && x < t.item && n == PrepareLeft(t)
    requires Deleted(n.left, x, l, deleted)
    ensures Deleted(t, x, Fixup(n.(left := l, leftSize := n.leftSize - (if deleted then 1 else 0))), deleted)
  {
    DeleteLeftPrepared(t, x);
    var node := n.(left := l, leftSize := n.leftSize - (if deleted then 1 else 0));
    RemovedLeft(n, x, l, deleted);
    SameInorder(t, n);
    SameInorder(node, Fixup(node));
    DeleteLeftShape(t, x, l, node.leftSize);
  }

  /** Colours and black heights on the way back from the left child in Delete. */
  lemma DeleteLeftShape(t: Tree, x: int, l: Tree, k: int)
    requires t.Node? && DeleteReady(t, x) && x < t.item
    requires var n := PrepareLeft(t);
      Balanced(l) && RootShape(l) &&
      (NotTwoNode(n.left) ==> LinkHeight(l) == LinkHeight(n.left)) &&
      (NotTwoNode(n.left) && !RedRed(n.left) ==> Llrb(l)) &&
      (NotTwoNode(n.left) && !IsRed(n.left) ==> !IsRed(l))
    ensures var r := Fixup(PrepareLeft(t).(left := l, leftSize := k));
      Balanced(r) && RootShape(r) &&
      (NotTwoNode(t) ==> LinkHeight(r) == LinkHeight(t)) &&
      (NotTwoNode(t) && !RedRed(t) ==> Llrb(r)) &&
      (NotTwoNode(t) && !IsRed(t) ==> !IsRed(r))
  {
    if LeftIsTwoNode(t) {
      MoveRedLeftBalance(t);
    }
    var node := PrepareLeft(t).(left := l, leftSize := k);
    FixupBalance(node);
    LlrbIsRootShape(Fixup(node));
  }

  /** The subtree Delete continues with on the right: a red left child rotated to the right. */
  function LeanRight(t: Tree): (r: Tree)
    requires t.Node?
    ensures r.Node? && Inorder(r) == Inorder(t) && (SizesOk(t) ==> SizesOk(r))
  {
    if IsRed(t.left) then RotateRight(t) else t
  }

  /** A right child that is a 2-node: present, black, with a black left child. */
  predicate RightIsTwoNode(t: Tree)
    requires t.Node?
  {
    t.right.Node? && !IsRed(t.right) && !IsRed(t.right.left)
  }

  /** The subtree Delete descends right from: a 2-node right child has borrowed a red link
      (MoveRedRight). */
  function PrepareRight(t: Tree): (r: Tree)
    requires t.Node?
    ensures r.Node? && Inorder(r) == Inorder(t) && (SizesOk(t) ==> SizesOk(r))
  {
    if RightIsTwoNode(t) then MoveRedRight(t) else t
  }

  /** The shape of the subtree after LeanRight: the left-leaning children, and a red right
      child only where the rotation put it or on a black node without a red left child. */
  lemma LeanRightShape(t: Tree, x: int)
    requires t.Node? && DeleteReady(t, x) && !(x < t.item)
    ensures var n := LeanRight(t);
      Ordered(n) && Balanced(n) && Llrb(n.left) && Llrb(n.right) && !IsRed(n.left) &&
      n.item <= x && (IsRed(t.left) ==> IsRed(n.right) && n.right.Node?) &&
      (IsRed(n.right) && !IsRed(t.left) ==> !IsRed(t)) &&
      (!IsRed(t.left) ==> n == t)
  {
    if IsRed(t.left) {
      RotateRightBalance(t);
      OrderedNode(t);
    }
    SameInorder(t, LeanRight(t));
  }

  /** A matching node without a right child (after LeanRight) is a leaf: dropping it
      removes exactly the item. */
  lemma DeleteFound(t: Tree, x: int)
    requires t.Node? && DeleteReady(t, x) && !(x < t.item)
    requires LeanRight(t).item == x && LeanRight(t).right.Leaf?
    ensures Deleted(t, x, Leaf, true)
  {
    LeanRightShape(t, x);
    AbsentSibling(t);
    assert Inorder(t) == [x];
  }

  /** Descending right in Delete: after MoveRedRight either the top holds the item and its
      right child can give up its minimum, or the item is above the top and the right
      child qualifies for the recursion. */
  lemma DeleteRightPrepared(t: Tree, x: int)
    requires t.Node? && DeleteReady(t, x) && !(x < t.item)
    requires !(LeanRight(t).item == x && LeanRight(t).right.Leaf?)
    ensures var n := PrepareRight(LeanRight(t));
      Ordered(n) && Balanced(n) && Llrb(n.left) && n.item <= x &&
      (n.item == x ==> n.right.Node? && DeleteMinPre(n.right) && x in Elements(t)) &&
      (n.item != x ==> DeleteReady(n.right, x) && (x in Elements(t) <==> x in Elements(n.right)))
  {
    LeanRightShape(t, x);
    var n1 := LeanRight(t);
    if RightIsTwoNode(n1) {
      MoveRedRightBalance(n1);
      OrderedNode(n1);
    }
    var n := PrepareRight(n1);
    SameInorder(t, n);
    OrderedNode(n);
    ElementsNode(n);
    Descend(n, x);
  }

  /** Colours and black heights on the way back from the right child in Delete, whichever
      item the top ends up with. */
  lemma DeleteRightShape(t: Tree, x: int, rt: Tree, m: int)
    requires t.Node? && DeleteReady(t, x) && !(x < t.item)
    requires !(LeanRight(t).item == x && LeanRight(t).right.Leaf?)
    requires var n := PrepareRight(LeanRight(t));
      Balanced(rt) && RootShape(rt) &&
      (NotTwoNode(n.right) ==> LinkHeight(rt) == LinkHeight(n.right)) &&
      (NotTwoNode(n.right) && !RedRed(n.right) ==> Llrb(rt)) &&
      (NotTwoNode(n.right) && !IsRed(n.right) ==> !IsRed(rt))
    ensures var r := Fixup(PrepareRight(LeanRight(t)).(item := m, right := rt));
      Balanced(r) && RootShape(r) &&
      (NotTwoNode(t) ==> LinkHeight(r) == LinkHeight(t)) &&
      (NotTwoNode(t) && !RedRed(t) ==> Llrb(r)) &&
      (NotTwoNode(t) && !IsRed(t) ==> !IsRed(r))
  {
    LeanRightShape(t, x);
    var n1 := LeanRight(t);
    if RightIsTwoNode(n1) {
      MoveRedRightBalance(n1);
    }
    var node := PrepareRight(n1).(item := m, right := rt);
    FixupBalance(node);
    LlrbIsRootShape(Fixup(node));
  }
  /** The way back from the right child in Delete when the item is above the top: Fixup. */
  lemma DeleteRightStep(t: Tree, x: int, n: Tree, rt: Tree, deleted: bool)
    requires t.Node? && DeleteReady(t, x) && !(x < t.item)
    requires !(LeanRight(t).item == x && LeanRight(t).right.Leaf?)
    requires n == PrepareRight(LeanRight(t)) && n.item != x
    requires Deleted(n.right, x, rt, deleted)
    ensures Deleted(t, x, Fixup(n.(right := rt)), deleted)
  {
    DeleteRightPrepared(t, x);
    var node := n.(right := rt);
    RemovedRight(n, x, rt, deleted);
    SameInorder(t, n);
    SameInorder(node, Fixup(node));
    DeleteRightShape(t, x, rt, n.item);
  }

  /** The way back in Delete when the top held the item: the top took its successor's item,
      the right child lost its minimum, then Fixup. */
  lemma DeleteSuccessorStep(t: Tree, x: int, n: Tree, rt: Tree)
    requires t.Node? && DeleteReady(t, x) && !(x < t.item)
    requires !(LeanRight(t).item == x && LeanRight(t).right.Leaf?)
    requires n == PrepareRight(LeanRight(t)) && n.item == x && n.right.Node?
    requires MinDeleted(SetMin(n.right, x), rt)
    ensures Deleted(t, x, Fixup(n.(item := Inorder(n.right)[0], right := rt)), true)
  {
    DeleteRightPrepared(t, x);
    var m := Inorder(n.right)[0];
    var node := n.(item := m, right := rt);
    SameInorder(t, n);
    assert Inorder(n) == Inorder(n.left) + [x] + Inorder(n.right);
    assert Inorder(node) == Inorder(n.left) + [m] + Inorder(n.right)[1..];
    SuccessorSwap(Inorder(n.left), x, Inorder(n.right));
    assert SizesOk(node);
    SameInorder(node, Fixup(node));
    LlrbIsRootShape(rt);
    DeleteRightShape(t, x, rt, m);
  }

  /** Node::Delete. Descending left, a 2-node left child first borrows a red link
      (MoveRedLeft) and LeftSize drops by one when the item was removed below. Otherwise a
      red left child is rotated right; a matching node with no right child is dropped; a
      2-node right child borrows a red link (MoveRedRight); a matching node takes its
      successor's item and the successor is removed by DeleteMin. Fixup runs on the way
      back. An absent item is reported with false. */
  method Delete(t: Tree, x: int) returns (r: Tree, deleted: bool)
    requires DeleteReady(t, x)
    ensures Deleted(t, x, r, deleted)
    decreases Size(t)
  {
    if t.Leaf? {
      assert Elements(t) == {};
      return Leaf, false;
    }
    var node := t;
    if x < node.item {
      if node.left.Node? && !IsRed(node.left) && !IsRed(node.left.left) {
        node := MoveRedLeft(node);
      }
      assert node == PrepareLeft(t);
      DeleteLeftPrepared(t, x);
      var l;
      l, deleted := Delete(node.left, x);
      DeleteLeftStep(t, x, node, l, deleted);
      node := node.(left := l, leftSize := node.leftSize - (if deleted then 1 else 0));
      r := Fixup(node);
    } else {
      if IsRed(node.left) {
        node := RotateRight(node);
      }
      assert node == LeanRight(t);
      if node.item == x && node.right.Leaf? {
        DeleteFound(t, x);
        return Leaf, true;
      }
      if !IsRed(node.right) && node.right.Node? && !IsRed(node.right.left) {
        node := MoveRedRight(node);
      }
      assert node == PrepareRight(LeanRight(t));
      DeleteRightPrepared(t, x);
      if node.item == x {
        // The leftmost node of the right subtree holds the successor.
        var rightMin := node.right;
        while rightMin.left.Node?
          invariant rightMin.Node? && Inorder(rightMin)[0] == Inorder(node.right)[0]
          decreases rightMin
        {
          Leftmost(rightMin);
          rightMin := rightMin.left;
        }
        Leftmost(rightMin);
        var rt;
        rt, deleted := DeleteMin(SetMin(node.right, x));
        DeleteSuccessorStep(t, x, node, rt);
        node := node.(item := rightMin.item, right := rt);
        r := Fixup(node);
      } else {
        var rt;
        rt, deleted := Delete(node.right, x);
        DeleteRightStep(t, x, node, rt, deleted);
        node := node.(right := rt);
        r := Fixup(node);
      }
    }
  }
}
