/** class RedBlackTree (RedBlackTree.h:432-632): the owner of the root, with the running item
    count m_treeSize. Its mutators hand the root slot to the Node operations and adjust the
    count by their success flag; its queries forward to the Node queries. */
module Container {
  import N = RedBlackNode
  import M = Mutation
  import Q = Queries
  import I = Invariants

  class RedBlackTree {
    /** m_root; Leaf when the tree is empty. */
    var root: N.Tree
    /** m_treeSize. */
    var treeSize: nat

    /** The tree is a valid left-leaning tree and the count is its number of items. */
    ghost predicate Valid()
      reads this
    {
      N.Valid(root) && treeSize == N.Size(root)
    }

    /** The items in increasing order. */
    ghost function Items(): seq<int>
      reads this
    {
      N.Inorder(root)
    }

    /** An empty tree. */
    constructor()
      ensures Valid() && Items() == [] && treeSize == 0
    {
      root := N.Leaf;
      treeSize := 0;
    }

    /** Inserts `x` unless it is present; reports whether it was inserted. */
    method Insert(x: int) returns (inserted: bool)
      requires Valid()
      modifies this
      ensures Valid() && I.CheckInvariants(root)
      ensures inserted <==> x !in old(N.Elements(root))
      ensures N.Elements(root) == old(N.Elements(root)) + {x}
      ensures treeSize == old(treeSize) + (if inserted then 1 else 0)
    {
      if treeSize == 0 {
        assert N.Elements(root) == {};
        root := N.Node(N.Red, 0, N.Leaf, x, N.Leaf);
        M.InsertIntoLeaf(x);
        treeSize := 1;
        inserted := true;
      } else {
        var r;
        r, inserted := M.Insert(root, x);
        root := r;
        if inserted {
          treeSize := treeSize + 1;
        }
      }
      I.ValidPassesCheck(root);
    }

    /** Removes `x` if it is present; reports whether it was removed. */
    method Delete(x: int) returns (deleted: bool)
      requires Valid()
      modifies this
      ensures Valid() && I.CheckInvariants(root)
      ensures deleted <==> x in old(N.Elements(root))
      ensures N.Elements(root) == old(N.Elements(root)) - {x}
      ensures treeSize == old(treeSize) - (if deleted then 1 else 0)
    {
      var r;
      r, deleted := M.Delete(root, x);
      root := r;
      treeSize := treeSize - (if deleted then 1 else 0);
      I.ValidPassesCheck(root);
    }

    /** Removes the item at in-order position `index`. An index past the end makes At give
        the default item, which is then removed if the tree holds it. */
    method DeleteAt(index: nat) returns (deleted: bool)
      requires Valid()
      modifies this
      ensures Valid() && I.CheckInvariants(root)
      ensures var y := if index < old(treeSize) then old(Items())[index] else N.DEFAULT_ITEM;
        (deleted <==> y in old(N.Elements(root))) &&
        N.Elements(root) == old(N.Elements(root)) - {y}
      ensures treeSize == old(treeSize) - (if deleted then 1 else 0)
      ensures index < old(treeSize) ==> deleted
    {
      Q.AtIsIndex(root, index);
      var y := Q.At(root, index);
      deleted := Delete(y);
    }

    /** Removes every item. */
    method Clear()
      modifies this
      ensures Valid() && Items() == [] && treeSize == 0
    {
      root := N.Leaf;
      treeSize := 0;
    }

    /** The rank and the item for `x`: its in-order index and itself when present, and
        (size_t)-1 with the default item when not. The rank is the corrected one (see
        Queries.FindCorrected). */
    method Find(x: int) returns (r: Q.Found)
      requires Valid()
      ensures treeSize < Q.SIZE_MAX && x in N.Elements(root) ==>
        r.item == x && r.rank < treeSize && Items()[r.rank] == x
      ensures treeSize < Q.SIZE_MAX && x !in N.Elements(root) ==>
        r == Q.Found(Q.SIZE_MAX, N.DEFAULT_ITEM)
    {
      r := Q.FindCorrected(root, x);
      if treeSize < Q.SIZE_MAX {
        Q.FindCorrectedSpec(root, x);
      }
    }

    /** The item at in-order position `index`, or the default item past the end. */
    method At(index: nat) returns (y: int)
      requires Valid()
      ensures y == if index < treeSize then Items()[index] else N.DEFAULT_ITEM
    {
      Q.AtIsIndex(root, index);
      y := Q.At(root, index);
    }

    /** Whether `x` is in the tree. */
    method Contains(x: int) returns (b: bool)
      requires Valid()
      ensures b <==> x in Items()
    {
      Q.ContainsIsMembership(root, x);
      b := Q.Contains(root, x);
    }

    /** Whether the tree holds no item. */
    method Empty() returns (b: bool)
      requires Valid()
      ensures b <==> Items() == []
    {
      b := treeSize == 0;
    }

    /** The number of items. */
    method Size() returns (n: nat)
      requires Valid()
      ensures n == |Items()|
    {
      n := treeSize;
    }

    /** RedBlackTree::CheckInvariants: always true for a valid tree. */
    method CheckInvariants() returns (ok: bool)
      requires Valid()
      ensures ok == I.CheckInvariants(root) && ok
    {
      I.ValidPassesCheck(root);
      ok := I.CheckInvariants(root);
    }
  }
}
