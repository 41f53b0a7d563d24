/** The read-only queries of struct Node (RedBlackTree.h:357-426): Find, At and Contains.
    Each walks down from a node and returns a value; none of them changes the tree. Ranks
    and indices are size_t in the source: `Find` keeps the source's wrap-around modulo
    2^64, indices are `nat`. */
module Queries {
  import opened RedBlackNode

  /** 2^64, the modulus of size_t arithmetic. */
  const SIZE_MOD: nat := 0x1_0000_0000_0000_0000

  /** (size_t)-1, the rank Node::Find reports for an item that is not in the tree. */
  const SIZE_MAX: nat := SIZE_MOD - 1

  /** An integer reduced modulo 2^64, as a size_t holds it. */
  function SizeT(a: int): (r: nat)
    ensures r < SIZE_MOD && (0 <= a < SIZE_MOD ==> r == a)
  {
    a % SIZE_MOD
  }

  /** The pair Find returns: a rank and the item found (or the shared default item). */
  datatype Found = Found(rank: nat, item: int)

  // ---------------------------------------------------------------------------
  // Counting
  // ---------------------------------------------------------------------------

  /** How many items of the subtree are below `x`: in a search tree, the in-order index
      that `x` has, or would have. */
  ghost function Below(t: Tree, x: int): nat {
    match t
    case Leaf => 0
    case Node(_, _, l, y, r) => Below(l, x) + (if y < x then 1 else 0) + Below(r, x)
  }

  /** How many times the search for `x` descends to a right child before it stops. */
  function RightTurns(t: Tree, x: int): nat {
    match t
    case Leaf => 0
    case Node(_, _, l, y, r) =>
      if x == y then 0 else if x < y then RightTurns(l, x) else RightTurns(r, x) + 1
  }

  lemma {:induction false} BelowAll(t: Tree, x: int)
    requires forall e :: e in Elements(t) ==> e < x
    ensures Below(t, x) == Size(t)
  {
    if t.Node? {
      ElementsNode(t);
      BelowAll(t.left, x);
      BelowAll(t.right, x);
    }
  }

  lemma {:induction false} BelowNone(t: Tree, x: int)
    requires forall e :: e in Elements(t) ==> x <= e
    ensures Below(t, x) == 0
  {
    if t.Node? {
      ElementsNode(t);
      BelowNone(t.left, x);
      BelowNone(t.right, x);
    }
  }

  /** Below one level down: in a search tree, the count for `x` is the count in the subtree
      the search for `x` enters, plus the left subtree and the node when it goes right. */
  lemma BelowNode(t: Tree, x: int)
    requires t.Node? && Ordered(t)
    ensures x <= t.item ==> Below(t, x) == Below(t.left, x)
    ensures t.item <= x ==> Below(t, x) == Size(t.left) + (if t.item < x then 1 else 0) + Below(t.right, x)
  {
    OrderedNode(t);
    if x <= t.item {
      BelowNone(t.right, x);
    }
    if t.item <= x {
      BelowAll(t.left, x);
    }
  }

  /** In a search tree an item sits at the in-order index that counts the items below it. */
  lemma {:induction false} BelowIsIndex(t: Tree, x: int)
    requires Ordered(t) && x in Elements(t)
    ensures Below(t, x) < Size(t) && Inorder(t)[Below(t, x)] == x
  {
    OrderedNode(t);
    ElementsNode(t);
    BelowNode(t, x);
    assert Inorder(t) == Inorder(t.left) + [t.item] + Inorder(t.right);
    if x < t.item {
      Descend(t, x);
      BelowIsIndex(t.left, x);
    } else if t.item < x {
      Descend(t, x);
      BelowIsIndex(t.right, x);
    }
  }

  // ---------------------------------------------------------------------------
  // Find
  // ---------------------------------------------------------------------------

  /** Node::Find as written: an absent item gives (size_t)-1 and the default item, a match
      gives the node's LeftSize and its item, and the rank of a right descent is increased
      by the parent's LeftSize, modulo 2^64. */
  function Find(t: Tree, x: int): (r: Found)
    ensures r.rank < SIZE_MOD
    ensures r.item == x || r.item == DEFAULT_ITEM
  {
    match t
    case Leaf => Found(SIZE_MAX, DEFAULT_ITEM)
    case Node(_, s, l, y, rt) =>
      if x == y then Found(SizeT(s), y)
      else if x < y then Find(l, x)
      else
        var f := Find(rt, x);
        Found(SizeT(f.rank + s), f.item)
  }

  /** (a mod 2^64 + b) mod 2^64 = (a + b) mod 2^64. */
  lemma AddMod(a: int, b: int)
    ensures SizeT(SizeT(a) + b) == SizeT(a + b)
  {
  }

  /** The rank Node::Find computes, in unbounded integers. */
  ghost function Unwrapped(t: Tree, x: int): int {
    match t
    case Leaf => SIZE_MAX
    case Node(_, s, l, y, rt) =>
      if x == y then s else if x < y then Unwrapped(l, x) else Unwrapped(rt, x) + s
  }

  /** Find's size_t rank is the unbounded one reduced modulo 2^64. */
  lemma {:induction false} FindWraps(t: Tree, x: int)
    ensures Find(t, x).rank == SizeT(Unwrapped(t, x))
  {
    if t.Node? && x != t.item {
      if x < t.item {
        FindWraps(t.left, x);
      } else {
        FindWraps(t.right, x);
        AddMod(Unwrapped(t.right, x), t.leftSize);
      }
    }
  }

  /** The item Node::Find as written returns: the item itself when present in a search
      tree, the default item otherwise. */
  lemma {:induction false} FindItem(t: Tree, x: int)
    requires Ordered(t)
    ensures Find(t, x).item == if x in Elements(t) then x else DEFAULT_ITEM
  {
    if t.Node? {
      Descend(t, x);
      ElementsNode(t);
      OrderedNode(t);
      if x < t.item {
        FindItem(t.left, x);
      } else if t.item < x {
        FindItem(t.right, x);
      }
    }
  }

  /** The rank an absent item starts from at the bottom of Find's walk. */
  ghost function Start(t: Tree, x: int): nat {
    if x in Elements(t) then 0 else SIZE_MAX
  }

  /** In a search tree with correct counters, Find's unbounded rank is the index of the
      item (or the sentinel, when absent) less the number of right descents. */
  lemma {:induction false} UnwrappedRank(t: Tree, x: int)
    requires SizesOk(t) && Ordered(t)
    ensures RightTurns(t, x) <= Below(t, x)
    ensures Unwrapped(t, x) == Start(t, x) + Below(t, x) - RightTurns(t, x)
  {
    if t.Node? {
      OrderedChildren(t);
      BelowNode(t, x);
      Descend(t, x);
      if x < t.item {
        UnwrappedRank(t.left, x);
        assert Start(t, x) == Start(t.left, x);
      } else if t.item < x {
        UnwrappedRank(t.right, x);
        assert Start(t, x) == Start(t.right, x);
      } else {
        BelowHere(t);
      }
    } else {
      assert Start(t, x) == SIZE_MAX;
    }
  }

  /** A node's own item is in its subtree and has its LeftSize items below it. */
  lemma BelowHere(t: Tree)
    requires t.Node? && SizesOk(t) && Ordered(t)
    ensures Start(t, t.item) == 0 && Below(t, t.item) == t.leftSize
  {
    OrderedNode(t);
    ElementsNode(t);
    BelowNode(t, t.item);
    BelowNone(t.right, t.item);
  }

  /** The rank Node::Find as written returns in a search tree with correct counters: the
      index of the item (or the sentinel, when absent) shifted down by the number of right
      descents, wrapping around modulo 2^64. */
  lemma FindRank(t: Tree, x: int)
    requires SizesOk(t) && Ordered(t)
    ensures RightTurns(t, x) <= Below(t, x)
    ensures Find(t, x).rank == SizeT(Start(t, x) + Below(t, x) - RightTurns(t, x))
  {
    FindWraps(t, x);
    UnwrappedRank(t, x);
  }

  /** For an item in a search tree of fewer than 2^64 nodes, Find as written names the item
      and a rank that is not the sentinel: the item's index less the right descents. */
  lemma FindPresent(t: Tree, x: int)
    requires SizesOk(t) && Ordered(t) && Size(t) <= SIZE_MAX && x in Elements(t)
    ensures Find(t, x).item == x && Find(t, x).rank != SIZE_MAX
    ensures Find(t, x).rank + RightTurns(t, x) == Below(t, x) < Size(t)
    ensures Inorder(t)[Find(t, x).rank + RightTurns(t, x)] == x
  {
    FindItem(t, x);
    FindRank(t, x);
    BelowIsIndex(t, x);
  }

  /** Node::Find with the rank of a right descent counting the parent node as well as its
      left subtree, and the sentinel passed up unchanged. */
  function FindCorrected(t: Tree, x: int): (r: Found)
    ensures r.item == x || r.item == DEFAULT_ITEM
  {
    match t
    case Leaf => Found(SIZE_MAX, DEFAULT_ITEM)
    case Node(_, s, l, y, rt) =>
      if x == y then Found(SizeT(s), y)
      else if x < y then FindCorrected(l, x)
      else
        var f := FindCorrected(rt, x);
        if f.rank == SIZE_MAX then f else Found(f.rank + SizeT(s) + 1, f.item)
  }

  /** FindCorrected returns the item's in-order index and the item when it is present, and
      the sentinel with the default item when it is not. */
  lemma {:induction false} FindCorrectedSpec(t: Tree, x: int)
    requires SizesOk(t) && Ordered(t) && Size(t) < SIZE_MAX
    ensures x in Elements(t) ==>
      FindCorrected(t, x) == Found(Below(t, x), x) && FindCorrected(t, x).rank < Size(t) &&
      Inorder(t)[FindCorrected(t, x).rank] == x
    ensures x !in Elements(t) ==> FindCorrected(t, x) == Found(SIZE_MAX, DEFAULT_ITEM)
  {
    if t.Node? {
      OrderedNode(t);
      ElementsNode(t);
      BelowNode(t, x);
      Descend(t, x);
      if x < t.item {
        FindCorrectedSpec(t.left, x);
      } else if t.item < x {
        FindCorrectedSpec(t.right, x);
        if x in Elements(t) {
          BelowIsIndex(t.right, x);
        }
      } else {
        BelowNone(t.right, x);
      }
      if x in Elements(t) {
        BelowIsIndex(t, x);
      }
    }
  }

  // ---------------------------------------------------------------------------
  // At and Contains
  // ---------------------------------------------------------------------------

  /** Node::At: the item at in-order position `index`, steering by LeftSize; a walk off the
      tree gives the default item. */
  function At(t: Tree, index: nat): (r: int)
    ensures r == DEFAULT_ITEM || r in Elements(t)
  {
    match t
    case Leaf => DEFAULT_ITEM
    case Node(_, s, l, y, rt) =>
      ElementsNode(t);
      if s == index then y
      else if index < s then At(l, index)
      else At(rt, index - (s + 1))
  }

  /** With correct counters, At is indexing into the in-order sequence, and an index past
      the end gives the default item. */
  lemma {:induction false} AtIsIndex(t: Tree, index: nat)
    requires SizesOk(t)
    ensures At(t, index) == if index < Size(t) then Inorder(t)[index] else DEFAULT_ITEM
  {
    if t.Node? {
      assert Inorder(t) == Inorder(t.left) + [t.item] + Inorder(t.right);
      if index < t.leftSize {
        AtIsIndex(t.left, index);
      } else if index > t.leftSize {
        AtIsIndex(t.right, index - (t.leftSize + 1));
      }
    }
  }

  /** Ranks from the corrected Find and positions for At agree: At inverts FindCorrected,
      and FindCorrected inverts At on every index of the tree. */
  lemma FindCorrectedInvertsAt(t: Tree, x: int, index: nat)
    requires SizesOk(t) && Ordered(t) && Size(t) < SIZE_MAX
    ensures x in Elements(t) ==> At(t, FindCorrected(t, x).rank) == x
    ensures index < Size(t) ==> FindCorrected(t, At(t, index)).rank == index
  {
    FindCorrectedSpec(t, x);
    AtIsIndex(t, FindCorrected(t, x).rank);
    if index < Size(t) {
      AtIsIndex(t, index);
      var y := Inorder(t)[index];
      assert y in Elements(t);
      FindCorrectedSpec(t, y);
      var k := FindCorrected(t, y).rank;
      assert Inorder(t)[k] == y;
    }
  }

  /** Node::Contains: binary search by comparison. */
  function Contains(t: Tree, x: int): (r: bool)
    ensures r ==> x in Elements(t)
  {
    match t
    case Leaf => false
    case Node(_, _, l, y, rt) =>
      ElementsNode(t);
      if x == y then true
      else if x < y then Contains(l, x)
      else Contains(rt, x)
  }

  /** In a search tree, Contains answers membership exactly. */
  lemma {:induction false} ContainsIsMembership(t: Tree, x: int)
    requires Ordered(t)
    ensures Contains(t, x) <==> x in Elements(t)
  {
    if t.Node? {
      OrderedNode(t);
      Descend(t, x);
      if x < t.item {
        ContainsIsMembership(t.left, x);
      } else if t.item < x {
        ContainsIsMembership(t.right, x);
      }
    }
  }

  // ---------------------------------------------------------------------------
  // Where Find as written goes wrong
  // ---------------------------------------------------------------------------

  /** The valid tree that inserting three items a < b < c in that order builds: b over a
      and c, all black. */
  function ThreeItems(a: int, b: int, c: int): Tree {
    Node(Black, 1, Node(Black, 0, Leaf, a, Leaf), b, Node(Black, 0, Leaf, c, Leaf))
  }

  /** ThreeItems is a valid tree holding a, b, c in this order. */
  lemma ThreeItemsValid(a: int, b: int, c: int)
    requires a < b < c
    ensures Valid(ThreeItems(a, b, c)) && Inorder(ThreeItems(a, b, c)) == [a, b, c]
  {
    var t := ThreeItems(a, b, c);
    assert Inorder(t.left) == [a] && Inorder(t.right) == [c];
    assert Inorder(t) == [a, b, c];
    assert Size(t.left) == 1;
    assert BlackHeight(t.left) == 1 == BlackHeight(t.right);
  }

  /** Find as written ranks the largest of three items, at in-order index 2, 1; the
      corrected walk gives 2. */
  lemma FindRankOffByOne(a: int, b: int, c: int)
    requires a < b < c
    ensures Valid(ThreeItems(a, b, c)) && Inorder(ThreeItems(a, b, c))[2] == c
    ensures Find(ThreeItems(a, b, c), c) == Found(1, c)
    ensures FindCorrected(ThreeItems(a, b, c), c) == Found(2, c)
  {
    ThreeItemsValid(a, b, c);
  }

  /** Find as written reports an item above all three with rank 0 instead of (size_t)-1:
      the sentinel wraps around when the parent's LeftSize is added to it. */
  lemma FindSentinelWraps(a: int, b: int, c: int, d: int)
    requires a < b < c < d
    ensures Valid(ThreeItems(a, b, c)) && d !in Elements(ThreeItems(a, b, c))
    ensures Find(ThreeItems(a, b, c), d) == Found(0, DEFAULT_ITEM)
    ensures FindCorrected(ThreeItems(a, b, c), d) == Found(SIZE_MAX, DEFAULT_ITEM)
  {
    ThreeItemsValid(a, b, c);
    var t := ThreeItems(a, b, c);
    assert Find(t.right, d) == Found(SIZE_MAX, DEFAULT_ITEM);
    assert FindCorrected(t.right, d) == Found(SIZE_MAX, DEFAULT_ITEM);
    assert SizeT(SIZE_MAX + 1) == 0;
  }
}
