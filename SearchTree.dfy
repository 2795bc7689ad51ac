/** Binary search trees as values: the shape that a NodeBST and everything below it
    stands for, and the insert, search and delete operations on that shape. */
module SearchTree {
  import Trees

  /** A binary tree: empty, or a node with a left subtree, a value and a right subtree. */
  datatype BinTree = Nil | Bin(left: BinTree, data: int, right: BinTree)

  /** The values stored in a tree, with their multiplicities. */
  function Elements(t: BinTree): multiset<int>
  {
    match t
    case Nil => multiset{}
    case Bin(l, d, r) => Elements(l) + multiset{d} + Elements(r)
  }

  /** The ordering the tree keeps: everything left of a node is at most its value
      (equal values go left), everything right of it is greater. */
  predicate IsBST(t: BinTree)
  {
    match t
    case Nil => true
    case Bin(l, d, r) =>
      && IsBST(l) && IsBST(r)
      && (forall y | y in Elements(l) :: y <= d)
      && (forall y | y in Elements(r) :: d < y)
  }

  predicate Sorted(s: seq<int>)
  {
    forall i, j | 0 <= i < j < |s| :: s[i] <= s[j]
  }

  // ---------------------------------------------------------------------------
  // Recursive traversals
  // ---------------------------------------------------------------------------

  /** In-order: the left subtree, the node, the right subtree. */
  function InOrder(t: BinTree): seq<int>
  {
    match t
    case Nil => []
    case Bin(l, d, r) => InOrder(l) + [d] + InOrder(r)
  }

  /** Pre-order: the node, the left subtree, the right subtree. */
  function PreOrder(t: BinTree): seq<int>
  {
    match t
    case Nil => []
    case Bin(l, d, r) => [d] + PreOrder(l) + PreOrder(r)
  }

  /** A non-empty binary tree as a general tree whose children are the subtrees
      that are present, left first. */
  function AsTree(t: BinTree): Trees.Tree
    requires t != Nil
    decreases t, 1
  {
    Trees.Tree(t.data, Children(t))
  }

  function Children(t: BinTree): (cs: seq<Trees.Tree>)
    requires t != Nil
    ensures |cs| == (if t.left == Nil then 0 else 1) + (if t.right == Nil then 0 else 1)
    decreases t, 0
  {
    (if t.left == Nil then [] else [AsTree(t.left)]) + (if t.right == Nil then [] else [AsTree(t.right)])
  }

  /** Breadth-first order of a non-empty binary tree: the level order of its general-tree view. */
  function LevelOrder(t: BinTree): seq<int>
    requires t != Nil
  {
    Trees.LevelOrder(AsTree(t))
  }

  // ---------------------------------------------------------------------------
  // Insert, search, delete
  // ---------------------------------------------------------------------------

  /** Insert: a greater value goes right, any other value left, until an empty
      place is found, where a new leaf holds it. */
  function TreeInsert(t: BinTree, x: int): BinTree
  {
    match t
    case Nil => Bin(Nil, x, Nil)
    case Bin(l, d, r) => if x > d then Bin(l, d, TreeInsert(r, x)) else Bin(TreeInsert(l, x), d, r)
  }

  /** The search that Find and Delete make: right for a greater value, left for a
      smaller one, and it stops at the first node holding the value. */
  predicate Reaches(t: BinTree, x: int)
  {
    match t
    case Nil => false
    case Bin(l, d, r) => if x > d then Reaches(r, x) else if x < d then Reaches(l, x) else true
  }

  /** The value at the end of the right spine. */
  function Max(t: BinTree): int
    requires t != Nil
  {
    if t.right == Nil then t.data else Max(t.right)
  }

  /** The tree with the last node of its right spine removed; that node has no
      right subtree, so its left subtree (possibly empty) takes its place. */
  function RemoveMax(t: BinTree): BinTree
    requires t != Nil
  {
    if t.right == Nil then t.left else Bin(t.left, t.data, RemoveMax(t.right))
  }

  /** Delete: search as Reaches does; at the node found, a leaf is removed, a single
      child takes the node's place, and a node with two children takes the maximum
      of its left subtree, whose node is removed instead. */
  function TreeDelete(t: BinTree, x: int): BinTree
  {
    match t
    case Nil => Nil
    case Bin(l, d, r) =>
      if x > d then Bin(l, d, TreeDelete(r, x))
      else if x < d then Bin(TreeDelete(l, x), d, r)
      else if l == Nil && r == Nil then Nil
      else if r == Nil then l
      else if l == Nil then r
      else Bin(RemoveMax(l), Max(l), r)
  }

  // ---------------------------------------------------------------------------
  // Properties
  // ---------------------------------------------------------------------------

  /** Insert adds exactly one occurrence of x. */
  lemma {:induction false} InsertElements(t: BinTree, x: int)
    ensures Elements(TreeInsert(t, x)) == Elements(t) + multiset{x}
  {
    match t
    case Nil =>
    case Bin(l, d, r) =>
      if x > d { InsertElements(r, x); } else { InsertElements(l, x); }
  }

  /** Insert keeps the ordering. */
  lemma {:induction false} InsertKeepsBST(t: BinTree, x: int)
    requires IsBST(t)
    ensures IsBST(TreeInsert(t, x))
  {
    match t
    case Nil =>
    case Bin(l, d, r) =>
      if x > d {
        InsertKeepsBST(r, x);
        InsertElements(r, x);
      } else {
        InsertKeepsBST(l, x);
        InsertElements(l, x);
      }
  }

  /** The search only ever stops at a node holding the value. */
  lemma {:induction false} ReachesIsMember(t: BinTree, x: int)
    requires Reaches(t, x)
    ensures x in Elements(t)
  {
    match t
    case Bin(l, d, r) =>
      if x > d { ReachesIsMember(r, x); } else if x < d { ReachesIsMember(l, x); }
  }

  /** On a BST the search finds exactly the values present. */
  lemma {:induction false} ReachesIffMember(t: BinTree, x: int)
    requires IsBST(t)
    ensures Reaches(t, x) <==> x in Elements(t)
  {
    match t
    case Nil =>
    case Bin(l, d, r) =>
      ReachesIffMember(l, x);
      ReachesIffMember(r, x);
  }

  lemma {:induction false} MaxIsLargest(t: BinTree)
    requires t != Nil && IsBST(t)
    ensures Max(t) in Elements(t)
    ensures forall y | y in Elements(t) :: y <= Max(t)
  {
    if t.right != Nil {
      MaxIsLargest(t.right);
    }
  }

  /** RemoveMax takes out one occurrence of the maximum and keeps the ordering. */
  lemma {:induction false} RemoveMaxElements(t: BinTree)
    requires t != Nil
    ensures Elements(t) == Elements(RemoveMax(t)) + multiset{Max(t)}
  {
    if t.right != Nil {
      RemoveMaxElements(t.right);
      var l, d, r := t.left, t.data, t.right;
      calc {
        Elements(t);
        Elements(l) + multiset{d} + Elements(r);
        Elements(l) + multiset{d} + (Elements(RemoveMax(r)) + multiset{Max(r)});
        (Elements(l) + multiset{d} + Elements(RemoveMax(r))) + multiset{Max(r)};
      }
    }
  }

  lemma {:induction false} RemoveMaxKeepsBST(t: BinTree)
    requires t != Nil && IsBST(t)
    ensures IsBST(RemoveMax(t))
  {
    if t.right != Nil {
      RemoveMaxKeepsBST(t.right);
      RemoveMaxElements(t.right);
      Within(RemoveMax(t.right), t.right, multiset{Max(t.right)});
    }
  }

  /** Every value of a part of a multiset is a value of the whole. */
  lemma Within(a: BinTree, b: BinTree, extra: multiset<int>)
    requires Elements(b) == Elements(a) + extra
    ensures forall y | y in Elements(a) :: y in Elements(b)
  {
  }

  /** Deleting a value the search does not reach changes nothing. */
  lemma {:induction false} DeleteAbsent(t: BinTree, x: int)
    requires !Reaches(t, x)
    ensures TreeDelete(t, x) == t
  {
    match t
    case Nil =>
    case Bin(l, d, r) =>
      if x > d { DeleteAbsent(r, x); } else { DeleteAbsent(l, x); }
  }

  /** Deleting a value the search reaches takes out exactly one occurrence. */
  lemma {:induction false} DeleteElements(t: BinTree, x: int)
    requires Reaches(t, x)
    ensures Elements(t) == Elements(TreeDelete(t, x)) + multiset{x}
    decreases t, 1
  {
    var l, d, r := t.left, t.data, t.right;
    if x > d {
      DeleteRight(l, d, r, x);
    } else if x < d {
      DeleteLeft(l, d, r, x);
    } else {
      DeleteHere(l, d, r);
    }
  }

  lemma {:induction false} DeleteRight(l: BinTree, d: int, r: BinTree, x: int)
    requires x > d && Reaches(r, x)
    ensures Elements(Bin(l, d, r)) == Elements(TreeDelete(Bin(l, d, r), x)) + multiset{x}
    decreases Bin(l, d, r), 0
  {
    DeleteElements(r, x);
    MoveLast(Elements(l) + multiset{d}, Elements(TreeDelete(r, x)), multiset{x});
  }

  lemma {:induction false} DeleteLeft(l: BinTree, d: int, r: BinTree, x: int)
    requires x < d && Reaches(l, x)
    ensures Elements(Bin(l, d, r)) == Elements(TreeDelete(Bin(l, d, r), x)) + multiset{x}
    decreases Bin(l, d, r), 0
  {
    DeleteElements(l, x);
    MoveFirst(Elements(TreeDelete(l, x)), multiset{x}, multiset{d} + Elements(r));
  }

  lemma MoveLast(a: multiset<int>, b: multiset<int>, m: multiset<int>)
    ensures a + (b + m) == (a + b) + m
  {
  }

  lemma MoveFirst(a: multiset<int>, m: multiset<int>, b: multiset<int>)
    ensures (a + m) + b == (a + b) + m
  {
  }

  /** Deleting the value at the root takes out that one occurrence. */
  lemma DeleteHere(l: BinTree, d: int, r: BinTree)
    ensures Elements(Bin(l, d, r)) == Elements(TreeDelete(Bin(l, d, r), d)) + multiset{d}
  {
    if l != Nil && r != Nil {
      assert TreeDelete(Bin(l, d, r), d) == Bin(RemoveMax(l), Max(l), r);
      RemoveMaxElements(l);
      MoveFirst(Elements(RemoveMax(l)), multiset{Max(l)}, multiset{d} + Elements(r));
    }
  }

  /** Delete keeps the ordering. */
  lemma {:induction false} DeleteKeepsBST(t: BinTree, x: int)
    requires IsBST(t)
    ensures IsBST(TreeDelete(t, x))
  {
    match t
    case Nil =>
    case Bin(l, d, r) =>
      if x > d {
        DeleteKeepsBST(r, x);
        DeleteShrinks(r, x);
      } else if x < d {
        DeleteKeepsBST(l, x);
        DeleteShrinks(l, x);
      } else if l != Nil && r != Nil {
        MaxIsLargest(l);
        RemoveMaxKeepsBST(l);
        RemoveMaxElements(l);
        Within(RemoveMax(l), l, multiset{Max(l)});
      }
  }

  /** Delete never adds a value. */
  lemma DeleteShrinks(t: BinTree, x: int)
    ensures forall y | y in Elements(TreeDelete(t, x)) :: y in Elements(t)
  {
    if Reaches(t, x) {
      DeleteElements(t, x);
      Within(TreeDelete(t, x), t, multiset{x});
    } else {
      DeleteAbsent(t, x);
    }
  }

  /** The in-order lists exactly the stored values. */
  lemma {:induction false} InOrderElements(t: BinTree)
    ensures multiset(InOrder(t)) == Elements(t)
  {
    match t
    case Nil =>
    case Bin(l, d, r) =>
      InOrderElements(l);
      InOrderElements(r);
      calc {
        multiset(InOrder(t));
        multiset(InOrder(l) + [d]) + multiset(InOrder(r));
        multiset(InOrder(l)) + multiset{d} + multiset(InOrder(r));
      }
  }

  /** The in-order of a BST is in non-decreasing order. */
  lemma {:induction false} InOrderSorted(t: BinTree)
    requires IsBST(t)
    ensures Sorted(InOrder(t))
  {
    match t
    case Nil =>
    case Bin(l, d, r) =>
      InOrderSorted(l);
      InOrderSorted(r);
      InOrderElements(l);
      InOrderElements(r);
      SortedAround(InOrder(l), d, InOrder(r));
  }

  /** A sorted run of values at most d, then d, then a sorted run of values above d, is sorted. */
  lemma SortedAround(a: seq<int>, d: int, b: seq<int>)
    requires Sorted(a) && Sorted(b)
    requires forall y | y in multiset(a) :: y <= d
    requires forall y | y in multiset(b) :: d < y
    ensures Sorted(a + [d] + b)
  {
    var s := a + [d] + b;
    forall i, j | 0 <= i < j < |s| ensures s[i] <= s[j] {
      if j < |a| {
        assert s[i] == a[i] && s[j] == a[j];
      } else if i < |a| {
        assert s[i] == a[i] && a[i] in multiset(a);
        if j > |a| {
          assert s[j] == b[j - |a| - 1] && b[j - |a| - 1] in multiset(b);
        }
      } else if i == |a| {
        assert s[j] == b[j - |a| - 1] && b[j - |a| - 1] in multiset(b);
      } else {
        assert s[i] == b[i - |a| - 1] && s[j] == b[j - |a| - 1];
      }
    }
  }

  /** The pre-order of a binary tree is that of its general-tree view, so the
      general traversals apply to it unchanged. */
  lemma {:induction false} PreOrderAsTree(t: BinTree)
    requires t != Nil
    ensures Trees.PreOrder(AsTree(t)) == PreOrder(t)
  {
    var l, r := t.left, t.right;
    if l != Nil { PreOrderAsTree(l); }
    if r != Nil { PreOrderAsTree(r); }
    var cs := Children(t);
    assert Trees.PreOrder(AsTree(t)) == [t.data] + Trees.PreOrderAll(cs);
    if l != Nil && r != Nil {
      assert cs == [AsTree(l)] + [AsTree(r)];
      Trees.PreOrderAllAppend([AsTree(l)], [AsTree(r)]);
      assert [AsTree(l)][1..] == [] && [AsTree(r)][1..] == [];
    } else if l != Nil {
      assert cs == [AsTree(l)] && cs[1..] == [];
      assert Trees.PreOrderAll(cs) == Trees.PreOrder(AsTree(l));
    } else if r != Nil {
      assert cs == [AsTree(r)] && cs[1..] == [];
      assert Trees.PreOrderAll(cs) == Trees.PreOrder(AsTree(r));
    }
  }

  lemma {:induction false} PreOrderElements(t: BinTree)
    ensures multiset(PreOrder(t)) == Elements(t)
  {
    match t
    case Nil =>
    case Bin(l, d, r) =>
      PreOrderElements(l);
      PreOrderElements(r);
      calc {
        multiset(PreOrder(t));
        multiset([d] + PreOrder(l)) + multiset(PreOrder(r));
        multiset{d} + multiset(PreOrder(l)) + multiset(PreOrder(r));
      }
  }

  /** Breadth-first order visits every stored value exactly once. */
  lemma LevelOrderElements(t: BinTree)
    requires t != Nil
    ensures multiset(LevelOrder(t)) == Elements(t)
  {
    Trees.LevelOrderIsPermutation(AsTree(t));
    PreOrderAsTree(t);
    PreOrderElements(t);
  }
}
