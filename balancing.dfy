/** The balancing primitives of struct Node (RedBlackTree.h:78-99, 155-237). Each rewrites
    the subtree held in a unique_ptr slot in place; here each returns the subtree that the
    slot holds afterwards. None of them changes the in-order items or breaks the LeftSize
    counters; the *Balance lemmas say what each does to colours and black heights. */
module Balancing {
  import opened RedBlackNode

  /** Node::SwitchColours: flips the node and each child that exists. */
  function SwitchColours(t: Tree): (r: Tree)
    requires t.Node?
    ensures r.Node? && Inorder(r) == Inorder(t) && (SizesOk(t) ==> SizesOk(r))
    ensures r.colour == Flip(t.colour)
    ensures IsRed(r.left) <==> t.left.Node? && !IsRed(t.left)
    ensures IsRed(r.right) <==> t.right.Node? && !IsRed(t.right)
  {
    var l := if t.left.Node? then t.left.(colour := Flip(t.left.colour)) else Leaf;
    var r := if t.right.Node? then t.right.(colour := Flip(t.right.colour)) else Leaf;
    assert Size(l) == Size(t.left) && (SizesOk(t.left) ==> SizesOk(l));
    assert SizesOk(t.right) ==> SizesOk(r);
    t.(colour := Flip(t.colour), left := l, right := r)
  }

  /** Switching colours twice restores the subtree. */
  lemma SwitchColoursTwice(t: Tree)
    requires t.Node?
    ensures SwitchColours(SwitchColours(t)) == t
  {
  }

  /** Node::MoveRedUp: splits a node whose two children are both red. */
  function MoveRedUp(t: Tree): (r: Tree)
    requires t.Node?
    ensures r.Node? && Inorder(r) == Inorder(t) && (SizesOk(t) ==> SizesOk(r))
    ensures !(IsRed(r.left) && IsRed(r.right))
  {
    if IsRed(t.left) && IsRed(t.right) then SwitchColours(t) else t
  }

  /** Node::RotateLeft: the right child becomes the top; the two nodes swap colours and the
      new top's LeftSize grows by the old top's LeftSize + 1. */
  function RotateLeft(t: Tree): (r: Tree)
    requires t.Node? && t.right.Node?
    ensures r.Node? && r.left.Node? && Inorder(r) == Inorder(t)
    ensures r.colour == t.colour && r.left.colour == t.right.colour
    ensures r.leftSize == t.right.leftSize + t.leftSize + 1
    ensures SizesOk(t) ==> SizesOk(r)
  {
    var top := t.right;
    assert SizesOk(t) ==> SizesOk(top) && top.leftSize == Size(top.left);
    Node(t.colour, top.leftSize + t.leftSize + 1,
         Node(top.colour, t.leftSize, t.left, t.item, top.left),
         top.item, top.right)
  }

  /** Node::RotateRight: the left child becomes the top; the two nodes swap colours and the
      demoted node's LeftSize shrinks by the new top's LeftSize + 1. */
  function RotateRight(t: Tree): (r: Tree)
    requires t.Node? && t.left.Node?
    ensures r.Node? && r.right.Node? && Inorder(r) == Inorder(t)
    ensures r.colour == t.colour && r.right.colour == t.left.colour
    ensures r.right.leftSize == t.leftSize - (t.left.leftSize + 1)
    ensures SizesOk(t) ==> SizesOk(r)
  {
    var top := t.left;
    assert SizesOk(t) ==> SizesOk(top) && top.leftSize == Size(top.left);
    Node(t.colour, top.leftSize, top.left, top.item,
         Node(top.colour, t.leftSize - (top.leftSize + 1), top.right, t.item, t.right))
  }

  /** Rotations are inverse to each other. */
  lemma RotateRightUndoesRotateLeft(t: Tree)
    requires t.Node? && t.right.Node?
    ensures RotateRight(RotateLeft(t)) == t
  {
  }

  /** Node::Fixup: lean a lone right red to the left, straighten two reds in a row on the
      left, then split a node with two red children. */
  function Fixup(t: Tree): (r: Tree)
    requires t.Node?
    ensures r.Node? && Inorder(r) == Inorder(t) && (SizesOk(t) ==> SizesOk(r))
  {
    var a := if IsRed(t.right) && !IsRed(t.left) then RotateLeft(t) else t;
    var b := if IsRed(a.left) && IsRed(a.left.left) then RotateRight(a) else a;
    MoveRedUp(b)
  }

  /** Node::MoveRedLeft: borrow a red link for the left side, from the right sibling when
      that sibling has a red left child. */
  function MoveRedLeft(t: Tree): (r: Tree)
    requires t.Node?
    ensures r.Node? && Inorder(r) == Inorder(t) && (SizesOk(t) ==> SizesOk(r))
  {
    var a := SwitchColours(t);
    if a.right.Node? && IsRed(a.right.left) then
      SwitchColours(RotateLeft(a.(right := RotateRight(a.right))))
    else
      a
  }

  /** Node::MoveRedRight: push a red link to the right side, rotating the left side's red
      pair over when there is one. */
  function MoveRedRight(t: Tree): (r: Tree)
    requires t.Node?
    ensures r.Node? && Inorder(r) == Inorder(t) && (SizesOk(t) ==> SizesOk(r))
  {
    var a := SwitchColours(t);
    if a.left.Node? && IsRed(a.left.left) then SwitchColours(RotateRight(a)) else a
  }

  // ---------------------------------------------------------------------------
  // Colours and black heights
  // ---------------------------------------------------------------------------

  /** A rotation over a red link keeps every path's black links. */
  lemma RotateLeftKeepsBalance(t: Tree)
    requires t.Node? && Balanced(t) && IsRed(t.right)
    ensures Balanced(RotateLeft(t)) && BlackHeight(RotateLeft(t)) == BlackHeight(t)
  {
    assert Balanced(RotateLeft(t).left);
  }

  lemma RotateRightKeepsBalance(t: Tree)
    requires t.Node? && Balanced(t) && IsRed(t.left)
    ensures Balanced(RotateRight(t)) && BlackHeight(RotateRight(t)) == BlackHeight(t)
  {
    assert Balanced(RotateRight(t).right);
  }

  /** Splitting a node whose two children are red moves one black link up on every path. */
  lemma SwitchColoursKeepsBalance(t: Tree)
    requires t.Node? && Balanced(t) && IsRed(t.left) && IsRed(t.right)
    ensures Balanced(SwitchColours(t)) && BlackHeight(SwitchColours(t)) == BlackHeight(t) + 1
  {
    var r := SwitchColours(t);
    assert Balanced(r.left) && Balanced(r.right);
  }

  /** Whether Fixup ends by splitting a temporary 4-node (its MoveRedUp fires). */
  predicate FixupSplits(t: Tree)
    requires t.Node?
  {
    IsRed(t.left) && (IsRed(t.right) || IsRed(t.left.left))
  }

  /** Fixup, applied where Insert and Delete apply it (the left child may be red-red, the
      right child is left-leaning, not both at once), returns a balanced subtree of root
      shape. It keeps the top's colour unless it splits, and it keeps the black height
      seen from the parent unless it splits a red top. */
  lemma FixupBalance(t: Tree)
    requires t.Node? && Balanced(t) && RootShape(t.left) && Llrb(t.right)
    requires !(RedRed(t.left) && IsRed(t.right))
    ensures var r := Fixup(t);
      Balanced(r) && RootShape(r) &&
      r.colour == (if FixupSplits(t) then Flip(t.colour) else t.colour) &&
      (IsRed(r.left) <==> !FixupSplits(t) && (IsRed(t.left) || IsRed(t.right))) &&
      LinkHeight(r) == LinkHeight(t) + (if FixupSplits(t) && IsRed(t) then 2 else 0)
  {
    if IsRed(t.right) && !IsRed(t.left) {
      RotateLeftKeepsBalance(t);
    } else if IsRed(t.left) && IsRed(t.left.left) {
      RotateRightKeepsBalance(t);
      SwitchColoursKeepsBalance(RotateRight(t));
    } else if IsRed(t.left) && IsRed(t.right) {
      SwitchColoursKeepsBalance(t);
    }
  }

  /** RotateRight, applied where Delete applies it (a red left child, which in a
      left-leaning subtree has a black left child), turns the red link to the right. */
  lemma RotateRightBalance(t: Tree)
    requires t.Node? && Balanced(t) && Llrb(t.left) && Llrb(t.right) && !IsRed(t.right)
    requires IsRed(t.left)
    ensures var r := RotateRight(t);
      Balanced(r) && BlackHeight(r) == BlackHeight(t) && r.colour == t.colour &&
      Llrb(r.left) && !IsRed(r.left) && IsRed(r.right) && Llrb(r.right)
  {
  }

  /** MoveRedLeft, applied where Delete and DeleteMin apply it (left child and its left child
      black), leaves a left child that is red or has a red left child. Either it only
      switches colours, or (when the right child has a red left child) it also rotates and
      keeps the top's colour and black height. */
  lemma MoveRedLeftBalance(t: Tree)
    requires t.Node? && Balanced(t) && Llrb(t.left) && Llrb(t.right) && !IsRed(t.right)
    requires t.left.Node? && !IsRed(t.left) && !IsRed(t.left.left)
    ensures var r := MoveRedLeft(t);
      Balanced(r) && Llrb(r.left) && Llrb(r.right) && r.left.Node? &&
      (IsRed(r.left) || IsRed(r.left.left)) && !RedRed(r.left) &&
      if t.right.Node? && IsRed(t.right.left) then
        r.colour == t.colour && BlackHeight(r) == BlackHeight(t) && !IsRed(r.right) &&
        !IsRed(r.left)
      else
        r.colour == Flip(t.colour) && BlackHeight(r) + 1 == BlackHeight(t) &&
        IsRed(r.left) && IsRed(r.right)
  {
    AbsentSibling(t);
    var a := SwitchColours(t);
    assert Balanced(a.left) && Balanced(a.right);
    if t.right.Node? && IsRed(t.right.left) {
      assert Balanced(t.right.left);
      var b := RotateRight(a.right);
      assert Balanced(b.right);
      var c := RotateLeft(a.(right := b));
      assert Balanced(c.left);
    }
  }

  /** MoveRedRight, applied where Delete applies it (left child not red, right child and its
      left child black). Either it only switches colours, leaving a red right child, or
      (when the left child has a red left child) it rotates the old top down to the right,
      where it is black with a red right child. */
  lemma MoveRedRightBalance(t: Tree)
    requires t.Node? && Balanced(t) && Llrb(t.left) && Llrb(t.right) && !IsRed(t.left)
    requires t.right.Node? && !IsRed(t.right) && !IsRed(t.right.left)
    ensures var r := MoveRedRight(t);
      Balanced(r) && Llrb(r.left) && r.right.Node? &&
      Llrb(r.right.left) && Llrb(r.right.right) &&
      if t.left.Node? && IsRed(t.left.left) then
        r.colour == t.colour && BlackHeight(r) == BlackHeight(t) && r.item == t.left.item &&
        !IsRed(r.left) && !IsRed(r.right) && !IsRed(r.right.left) && IsRed(r.right.right) &&
        r.right.item == t.item
      else
        r.colour == Flip(t.colour) && BlackHeight(r) + 1 == BlackHeight(t) && r.item == t.item &&
        IsRed(r.left) && IsRed(r.right) && Llrb(r.right)
  {
    AbsentSibling(t);
    var a := SwitchColours(t);
    assert Balanced(a.left) && Balanced(a.right);
    if t.left.Node? && IsRed(t.left.left) {
      assert Balanced(t.left.left) && Balanced(t.left.right);
      var b := RotateRight(a);
      assert Balanced(b.right);
    }
  }
}
