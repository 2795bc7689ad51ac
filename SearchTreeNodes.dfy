/** The binary search tree as linked nodes: each NodeBST holds a value and points
    to its parent and to its left and right children, and Insert, Find and Delete
    work on those links in place. Each node's subtree stands for a BinTree value,
    and every operation is specified by the matching operation on that value. */
module SearchTreeNodes {
  import opened SearchTree
  import Trees

  class NodeBST {
    var data: int
    var parent: NodeBST?
    var left: NodeBST?
    var right: NodeBST?
    /** The nodes of the subtree below (and including) this node. */
    ghost var Repr: set<object>

    /** The subtree is a finite tree: each child lies inside the footprint, says
        that this node is its parent, and the two subtrees share no node. */
    ghost predicate Valid()
      reads this, Repr
      decreases Repr
    {
      && this in Repr
      && (left != null ==>
            && left in Repr && left.Repr <= Repr && this !in left.Repr
            && left.parent == this && left.Valid())
      && (right != null ==>
            && right in Repr && right.Repr <= Repr && this !in right.Repr
            && right.parent == this && right.Valid())
      && (left != null && right != null ==> left.Repr !! right.Repr)
    }

    /** The subtree below this node, as a value. */
    ghost function Model(): BinTree
      reads this, Repr
      requires Valid()
      decreases Repr
    {
      Bin(if left == null then Nil else left.Model(), data, if right == null then Nil else right.Model())
    }

    /** A childless node holding `data` under `parent` (none for a root). */
    constructor (data: int, parent: NodeBST?)
      ensures Valid() && Repr == {this}
      ensures Model() == Bin(Nil, data, Nil)
      ensures this.data == data && this.parent == parent && left == null && right == null
    {
      this.data := data;
      this.parent := parent;
      left := null;
      right := null;
      Repr := {this};
    }

    predicate IsRoot()
      reads this
    {
      parent == null
    }

    predicate IsLeaf()
      reads this
    {
      left == null && right == null
    }

    /** Insert: a value greater than this node's goes right, any other left, until
        a missing child is found; a new leaf holding the value takes its place and
        is returned. */
    method Insert(x: int) returns (leaf: NodeBST)
      requires Valid()
      modifies Repr
      decreases Repr
      ensures Valid() && fresh(leaf) && Repr == old(Repr) + {leaf}
      ensures Model() == TreeInsert(old(Model()), x)
      ensures leaf.data == x && leaf.left == null && leaf.right == null
      ensures leaf.parent != null && leaf.parent in old(Repr)
      ensures leaf.parent.left == leaf || leaf.parent.right == leaf
      ensures parent == old(parent)
      ensures forall n: NodeBST | n in old(Repr) :: n.data == old(n.data)
    {
      if x > data {
        if right != null {
          leaf := right.Insert(x);
        } else {
          leaf := new NodeBST(x, this);
          right := leaf;
        }
      } else {
        if left != null {
          leaf := left.Insert(x);
        } else {
          leaf := new NodeBST(x, this);
          left := leaf;
        }
      }
      Repr := Repr + {leaf};
    }

    /** Find: the search Reaches describes, returning the node where it stops, or
        null when it runs off the tree. */
    function Find(x: int): (r: NodeBST?)
      reads this, Repr
      requires Valid()
      decreases Repr
      ensures r != null ==> r in Repr && r.Repr <= Repr && r.Valid() && r.data == x
      ensures r == null <==> !Reaches(Model(), x)
    {
      if x > data then (if right != null then right.Find(x) else null)
      else if x < data then (if left != null then left.Find(x) else null)
      else this
    }

    /** A subtree none of whose nodes changed is still valid and stands for the same value. */
    twostate lemma Untouched()
      requires old(Valid()) && forall o: object :: o in old(Repr) ==> unchanged(o)
      ensures Valid() && Repr == old(Repr) && Model() == old(Model())
      decreases old(Repr)
    {
      if left != null {
        left.Untouched();
      }
      if right != null {
        right.Untouched();
      }
    }

    /** A node with two children whose left subtree lost its maximum, which the
        node now holds, and whose right subtree is as it was, is valid and stands
        for its old subtree with its old value deleted. */
    twostate lemma Reassembled()
      requires old(Valid()) && old(left) != null && old(right) != null
      requires Repr == old(Repr) && data == Max(old(left.Model()))
      requires left == null || (left.Valid() && left.Repr <= old(left.Repr) && left.parent == this)
      requires ModelOf(left) == RemoveMax(old(left.Model()))
      requires right == old(right) && right.Valid() && right.Repr == old(right.Repr) && right.parent == this
      requires right.Model() == old(right.Model())
      ensures Valid() && Model() == TreeDelete(old(Model()), old(data))
    {
      TreeDeleteTwoChildren(old(left.Model()), old(data), old(right.Model()));
    }

    /** m lies on the right spine that starts at this node: it is reached by
        following right children only. */
    ghost predicate RightSpine(m: NodeBST)
      reads this, Repr
      requires Valid()
      decreases Repr
    {
      this == m || (right != null && m in right.Repr && m.Repr <= right.Repr && right.RightSpine(m))
    }

    /** After the node below mp at the foot of this node's right spine is deleted,
        which relinks only mp, every node from this one down to mp is valid again
        and stands for its old subtree with the maximum removed. */
    twostate lemma SpineRepaired(mp: NodeBST)
      requires old(Valid()) && old(RightSpine(mp)) && old(mp.Valid()) && old(mp.right) != null
      requires forall o: object :: o in old(Repr) && o !in old(mp.right.Repr) && o != mp ==> unchanged(o)
      requires mp.left == old(mp.left) && mp.data == old(mp.data)
      requires mp.parent == old(mp.parent) && mp.Repr == old(mp.Repr)
      requires mp.right != null ==> mp.right.Valid() && mp.right.Repr <= old(mp.right.Repr) && mp.right.parent == mp
      requires ModelOf(mp.right) == RemoveMax(old(mp.right.Model()))
      ensures Valid() && Model() == RemoveMax(old(Model()))
      decreases old(Repr)
    {
      if this != mp {
        right.SpineRepaired(mp);
      }
    }

    /** What Delete(x) returns, read off the tree before the call. With f the node
        the search for x stops at: null when there is none; f's parent when f has
        one; otherwise (f is the root) null for a leaf, the only child for a node
        with one child, and f itself, relabelled, for a node with two. */
    ghost function DeleteResult(x: int): NodeBST?
      reads this, Repr
      requires Valid()
    {
      var f := Find(x);
      if f == null then null
      else if f.parent != null then f.parent
      else if f.left == null && f.right == null then null
      else if f.right == null then f.left
      else if f.left == null then f.right
      else f
    }

    /** Delete: search as Find does; at the node found, a leaf is unlinked from its
        parent, a node with one child has that child linked to its parent in its
        place, and a node with two children takes the greatest value of its left
        subtree, whose node (found by walking right) is deleted instead. `sub` is the
        node that now heads what was this subtree; the parent's link to this node
        now leads to `sub`. */
    method Delete(x: int) returns (r: NodeBST?, ghost sub: NodeBST?)
      requires Valid()
      requires parent != null ==> parent !in Repr && (parent.left == this || parent.right == this)
      modifies Repr, parent
      decreases Repr, 1
      ensures parent == old(parent) && Repr == old(Repr)
      ensures sub != null ==> sub.Valid() && sub.Repr <= old(Repr) && sub.parent == old(parent)
      ensures ModelOf(sub) == TreeDelete(old(Model()), x)
      ensures r == old(DeleteResult(x))
      ensures parent != null ==>
        && parent.data == old(parent.data) && parent.parent == old(parent.parent) && parent.Repr == old(parent.Repr)
        && (old(parent.left) == this ==> parent.left == sub && parent.right == old(parent.right))
        && (old(parent.left) != this ==> parent.right == sub && parent.left == old(parent.left))
      ensures !Reaches(old(Model()), x) ==> r == null && sub == this && unchanged(Repr) && (parent != null ==> unchanged(parent))
      ensures sub == if x == old(data) && (old(left) == null || old(right) == null)
                     then (if old(right) == null then old(left) else old(right))
                     else this
    {
      if x > data {
        if right != null {
          ghost var s;
          r, s := right.Delete(x);
          assert ModelOf(left) == old(ModelOf(left));
        } else {
          r := null;
        }
        sub := this;
      } else if x < data {
        if left != null {
          ghost var s;
          r, s := left.Delete(x);
          assert ModelOf(right) == old(ModelOf(right));
        } else {
          r := null;
        }
        sub := this;
      } else if left == null || right == null {
        r, sub := Unlink();
      } else {
        r := TakeMaxOfLeft();
        sub := this;
      }
    }

    /** Delete at a node with at most one child: the child (none for a leaf) is
        linked to the parent in this node's place. Returns the parent, or for a
        root the child, which is then the new root. */
    method Unlink() returns (r: NodeBST?, ghost sub: NodeBST?)
      requires Valid() && (left == null || right == null)
      requires parent != null ==> parent !in Repr && (parent.left == this || parent.right == this)
      modifies Repr, parent
      ensures parent == old(parent) && Repr == old(Repr)
      ensures sub != null ==> sub.Valid() && sub.Repr <= old(Repr) && sub.parent == old(parent)
      ensures ModelOf(sub) == TreeDelete(old(Model()), old(data))
      ensures r == old(DeleteResult(data))
      ensures sub == if old(right) == null then old(left) else old(right)
      ensures parent != null ==>
        && parent.data == old(parent.data) && parent.parent == old(parent.parent) && parent.Repr == old(parent.Repr)
        && (old(parent.left) == this ==> parent.left == sub && parent.right == old(parent.right))
        && (old(parent.left) != this ==> parent.right == sub && parent.left == old(parent.left))
    {
      var p := parent;
      var child := if right == null then left else right;
      if child != null {
        child.parent := p;
      }
      if p == null {
        r := child;
      } else if this == p.left {
        p.left := child;
        r := p;
      } else {
        p.right := child;
        r := p;
      }
      sub := child;
    }

    /** Case 2 of Delete exactly as written: the link above is moved to the only
        child, but the child's own parent link is left pointing at the removed
        node. Below a parent, the parent's subtree is then no longer a
        well-formed tree; at the root, the child returned as the new root does
        not answer IsRoot. */
    method UnlinkAsWritten() returns (r: NodeBST?)
      requires Valid() && (left == null) != (right == null)
      requires parent != null ==> parent !in Repr && (parent.left == this || parent.right == this)
      modifies parent
      ensures var child := if old(right) == null then old(left) else old(right);
        && child != null && child.parent == this
        && r == (if old(parent) == null then child else old(parent))
        && (old(parent) != null && old(parent.left) == this ==> r.left == child)
        && (old(parent) != null && old(parent.left) != this ==> r.right == child)
      ensures old(parent) != null ==> !r.Valid()
      ensures old(parent) == null ==> !r.IsRoot()
    {
      var p := parent;
      var child := if right == null then left else right;
      if p == null {
        r := child;
      } else if this == p.left {
        p.left := child;
        r := p;
      } else {
        p.right := child;
        r := p;
      }
    }

    /** The walk from the left child along right children to the node with no
        right child, which holds the greatest value of the left subtree; mp is the
        node above it. */
    method MaxOfLeft() returns (m: NodeBST, ghost mp: NodeBST)
      requires Valid() && left != null
      ensures m.Valid() && m in left.Repr && m.Repr <= left.Repr && m.right == null
      ensures left.RightSpine(m) && m.data == Max(left.Model())
      ensures m.parent == mp && mp !in m.Repr
      ensures mp == this ==> m == left
      ensures mp != this ==> mp in left.Repr && mp.Valid() && left.RightSpine(mp) && mp.right == m
    {
      m, mp := left, this;
      while m.right != null
        invariant m.Valid() && m in left.Repr && m.Repr <= left.Repr
        invariant left.RightSpine(m) && Max(m.Model()) == Max(left.Model())
        invariant m.parent == mp && mp !in m.Repr
        invariant mp == this ==> m == left
        invariant mp != this ==> mp in left.Repr && mp.Valid() && left.RightSpine(mp) && mp.right == m
        decreases m.Repr
      {
        SpineExtend(left, m);
        mp := m;
        m := m.right;
      }
    }

    /** Delete at a node with two children: walk right from the left child to the
        greatest value below it, copy that value here and delete its node, which
        has no right child. Returns the parent, or this node for a root. */
    method TakeMaxOfLeft() returns (r: NodeBST?)
      requires Valid() && left != null && right != null
      modifies Repr
      decreases Repr, 0
      ensures Valid() && parent == old(parent) && Repr == old(Repr)
      ensures Model() == TreeDelete(old(Model()), old(data))
      ensures r == old(DeleteResult(data))
    {
      ghost var L, R := left.Model(), right.Model();
      var m: NodeBST, mp := MaxOfLeft();
      data := m.data;
      assert right.Repr !! m.Repr && mp !in right.Repr;
      var ignored, s := m.Delete(data);
      right.Untouched();
      if mp != this {
        left.SpineRepaired(mp);
      }
      Reassembled();
      if parent == null {
        r := this;
      } else {
        r := parent;
      }
    }
  }

  /** A caller that keeps only the root: after inserting 23 and 11 below 30 and
      deleting 23 again, the depth-first traversal from the root sees 30 and
      then 11, the one-child node 23 having been replaced by its child. */
  method DeleteSeenFromRoot() returns (visited: seq<int>)
    ensures visited == [30, 11]
  {
    var root := new NodeBST(30, null);
    var _ := root.Insert(23);
    var _ := root.Insert(11);
    var _, _ := root.Delete(23);
    visited := TraverseDepthFirst(root);
  }

  /** The subtree below n as a value, the empty tree for no node. */
  ghost function ModelOf(n: NodeBST?): BinTree
    reads if n == null then {} else {n} + n.Repr
    requires n == null || n.Valid()
  {
    if n == null then Nil else n.Model()
  }

  /** Following one more right child stays on the right spine. */
  lemma SpineExtend(n: NodeBST, m: NodeBST)
    requires n.Valid() && n.RightSpine(m) && m.right != null
    ensures n.RightSpine(m.right)
    decreases n.Repr
  {
    if n != m {
      SpineExtend(n.right, m);
    }
  }


  /** Deleting the value at a node with two children leaves the maximum of the
      left subtree in its place. */
  lemma TreeDeleteTwoChildren(l: BinTree, d: int, r: BinTree)
    requires l != Nil && r != Nil
    ensures TreeDelete(Bin(l, d, r), d) == Bin(RemoveMax(l), Max(l), r)
  {
  }

  /** On a search tree Find succeeds exactly for the values the tree holds. */
  lemma FindIffStored(n: NodeBST, x: int)
    requires n.Valid() && IsBST(n.Model())
    ensures n.Find(x) != null <==> x in Elements(n.Model())
  {
    ReachesIffMember(n.Model(), x);
  }

  /** A node is a leaf exactly when its subtree holds its own value and nothing else. */
  lemma LeafHoldsOnlyItself(n: NodeBST)
    requires n.Valid()
    ensures n.IsLeaf() <==> Elements(n.Model()) == multiset{n.data}
  {
    if n.left != null {
      NonEmpty(n.left.Model());
    }
    if n.right != null {
      NonEmpty(n.right.Model());
    }
  }

  lemma NonEmpty(t: BinTree)
    requires t != Nil
    ensures |Elements(t)| > 0
  {
    assert t.data in Elements(t);
  }

  // ---------------------------------------------------------------------------
  // Traversals of the linked search tree
  // ---------------------------------------------------------------------------

  /** Recursive in-order traversal: the left subtree, the node, the right subtree. */
  function TraverseInOrder(node: NodeBST?): (s: seq<int>)
    reads if node == null then {} else {node} + node.Repr
    requires node == null || node.Valid()
    decreases if node == null then {} else node.Repr
    ensures s == InOrder(ModelOf(node))
  {
    if node == null then []
    else
      (if node.left != null then TraverseInOrder(node.left) else [])
      + [node.data]
      + (if node.right != null then TraverseInOrder(node.right) else [])
  }

  /** On a search tree the in-order traversal lists every stored value once, in
      non-decreasing order. */
  lemma InOrderIsSortedContents(node: NodeBST)
    requires node.Valid() && IsBST(node.Model())
    ensures Sorted(TraverseInOrder(node))
    ensures multiset(TraverseInOrder(node)) == Elements(node.Model())
  {
    InOrderSorted(node.Model());
    InOrderElements(node.Model());
  }

  /** The stacked or queued nodes ns, all inside footprint R, stand for the
      subtrees ts, position by position. This and the Bin lemmas below are the
      NodeBST counterparts of Trees.Mirrors and its lemmas. */
  ghost predicate BinMirrors(ns: seq<NodeBST>, ts: seq<Trees.Tree>, R: set<object>)
    reads R
    decreases |ns|
  {
    && |ns| == |ts|
    && (ns != [] ==>
          && ns[0] in R && ns[0].Repr <= R && ns[0].Valid()
          && ts[0] == AsTree(ns[0].Model())
          && BinMirrors(ns[1..], ts[1..], R))
  }

  lemma {:induction false} BinMirrorsAppend(a: seq<NodeBST>, ta: seq<Trees.Tree>, b: seq<NodeBST>, tb: seq<Trees.Tree>, R: set<object>)
    requires BinMirrors(a, ta, R) && BinMirrors(b, tb, R)
    ensures BinMirrors(a + b, ta + tb, R)
    decreases |a|
  {
    if a == [] {
      assert a + b == b && ta + tb == tb;
    } else {
      BinMirrorsAppend(a[1..], ta[1..], b, tb, R);
      assert (a + b)[1..] == a[1..] + b;
      assert (ta + tb)[1..] == ta[1..] + tb;
    }
  }

  /** The top (last) of a mirrored stack stands for the last subtree, and the rest for the rest. */
  lemma {:induction false} BinMirrorsLast(ns: seq<NodeBST>, ts: seq<Trees.Tree>, R: set<object>)
    requires BinMirrors(ns, ts, R) && ns != []
    ensures var n := ns[|ns| - 1]; n in R && n.Repr <= R && n.Valid() && ts[|ts| - 1] == AsTree(n.Model())
    ensures BinMirrors(ns[..|ns| - 1], ts[..|ts| - 1], R)
    decreases |ns|
  {
    if |ns| > 1 {
      BinMirrorsLast(ns[1..], ts[1..], R);
      assert ns[1..][..|ns| - 2] == ns[..|ns| - 1][1..];
      assert ts[1..][..|ts| - 2] == ts[..|ts| - 1][1..];
    } else {
      assert ns[..0] == [] && ts[..0] == [];
    }
  }

  lemma BinMirrorsSingle(n: NodeBST, R: set<object>)
    requires n in R && n.Repr <= R && n.Valid()
    ensures BinMirrors([n], [AsTree(n.Model())], R)
  {
    assert [n][1..] == [];
    assert [AsTree(n.Model())][1..] == [];
  }

  /** The children present below n, left first. */
  ghost function ChildNodes(n: NodeBST): seq<NodeBST>
    reads n
  {
    (if n.left != null then [n.left] else []) + (if n.right != null then [n.right] else [])
  }

  /** The children of n stand for the children of its general-tree view, in order
      and in reverse. */
  lemma BinMirrorsChildNodes(n: NodeBST, R: set<object>)
    requires n in R && n.Repr <= R && n.Valid()
    ensures BinMirrors(ChildNodes(n), Children(n.Model()), R)
    ensures BinMirrors(Trees.Reversed(ChildNodes(n)), Trees.Reversed(Children(n.Model())), R)
  {
    var l := if n.left != null then [n.left] else [];
    var r := if n.right != null then [n.right] else [];
    var tl := if n.left != null then [AsTree(n.left.Model())] else [];
    var tr := if n.right != null then [AsTree(n.right.Model())] else [];
    assert BinMirrors(l, tl, R) by {
      if n.left != null { BinMirrorsSingle(n.left, R); }
    }
    assert BinMirrors(r, tr, R) by {
      if n.right != null { BinMirrorsSingle(n.right, R); }
    }
    BinMirrorsAppend(l, tl, r, tr, R);
    ReversedPair(l, r);
    ReversedPair(tl, tr);
    BinMirrorsAppend(r, tr, l, tl, R);
  }

  /** Reversing at most one element followed by at most one element swaps them. */
  lemma ReversedPair<T>(a: seq<T>, b: seq<T>)
    requires |a| <= 1 && |b| <= 1
    ensures Trees.Reversed(a + b) == b + a
  {
    if a == [] {
      assert a + b == b;
      if b != [] { assert b[1..] == []; }
    } else if b == [] {
      assert a + b == a;
      assert a[1..] == [];
    } else {
      assert (a + b)[1..] == b;
      assert b[1..] == [];
    }
  }

  /** The stack after pushing the right child of n and then its left child, when
      present, so that the left child ends up on top. */
  function PushChildren(stack: seq<NodeBST>, n: NodeBST): (pushed: seq<NodeBST>)
    reads n
    ensures pushed == stack + Trees.Reversed(ChildNodes(n))
  {
    ReversedPair(if n.left != null then [n.left] else [], if n.right != null then [n.right] else []);
    var withRight := if n.right != null then stack + [n.right] else stack;
    if n.left != null then withRight + [n.left] else withRight
  }

  /** One round of the depth-first loop: popping `visit` (whose subtree is on top
      of `forest`), visiting it and pushing its right child and then its left
      child keeps the stack mirrored and keeps the visited order plus what the
      stack still yields equal to the whole pre-order. */
  lemma BinDepthFirstRound(visit: NodeBST, base: seq<NodeBST>, forest: seq<Trees.Tree>, R: set<object>,
                        visited: seq<int>, whole: seq<int>, stack': seq<NodeBST>, forest': seq<Trees.Tree>)
    requires visit in R && visit.Repr <= R && visit.Valid() && forest != []
    requires forest[|forest| - 1] == AsTree(visit.Model())
    requires BinMirrors(base, forest[..|forest| - 1], R)
    requires visited + Trees.PreOrderStack(forest) == whole
    requires stack' == base + Trees.Reversed(ChildNodes(visit))
    requires forest' == forest[..|forest| - 1] + Trees.Reversed(forest[|forest| - 1].children)
    ensures BinMirrors(stack', forest', R)
    ensures (visited + [visit.data]) + Trees.PreOrderStack(forest') == whole
  {
    var t, below := forest[|forest| - 1], forest[..|forest| - 1];
    BinMirrorsChildNodes(visit, R);
    BinMirrorsAppend(base, below, Trees.Reversed(ChildNodes(visit)), Trees.Reversed(t.children), R);
    Trees.PreOrderStackReversed(below, t.children);
    assert Trees.PreOrderStack(forest) == [t.data] + Trees.PreOrderAll(t.children) + Trees.PreOrderStack(below);
    Trees.Regroup(visited, [t.data], Trees.PreOrderAll(t.children) + Trees.PreOrderStack(below));
    Trees.Regroup([t.data], Trees.PreOrderAll(t.children), Trees.PreOrderStack(below));
  }

  /** Depth-first traversal with an explicit stack: pop a node, visit it, push its
      right child and then its left child, so that the left one is visited first. */
  method TraverseDepthFirst(node: NodeBST) returns (visited: seq<int>)
    requires node.Valid()
    ensures visited == PreOrder(node.Model())
  {
    ghost var R := {node} + node.Repr;
    ghost var whole := Trees.PreOrder(AsTree(node.Model()));
    var stack: seq<NodeBST> := [node];
    ghost var forest := [AsTree(node.Model())];  // the subtrees below the stacked nodes
    visited := [];
    BinMirrorsSingle(node, R);
    assert Trees.PreOrderStack(forest) == whole by { assert forest[..0] == []; }
    while stack != []
      invariant BinMirrors(stack, forest, R)
      invariant visited + Trees.PreOrderStack(forest) == whole
      decreases |whole| - |visited|
    {
      BinMirrorsLast(stack, forest, R);
      var visit := stack[|stack| - 1];
      stack := stack[..|stack| - 1];
      ghost var base, before := stack, forest;
      stack := PushChildren(stack, visit);
      forest := forest[..|forest| - 1] + Trees.Reversed(forest[|forest| - 1].children);
      BinDepthFirstRound(visit, base, before, R, visited, whole, stack, forest);
      visited := visited + [visit.data];
    }
    PreOrderAsTree(node.Model());
  }

  /** One round of the breadth-first loop, on the nodes: taking the front node off
      the queue and appending its children keeps the queue mirroring the rest of
      the current level followed by the grown next level. */
  lemma BinBreadthFirstMirrors(queue: seq<NodeBST>, current: seq<Trees.Tree>, next: seq<Trees.Tree>, R: set<object>)
    requires BinMirrors(queue, current + next, R) && current != []
    ensures queue != [] && queue[0] in R && queue[0].Repr <= R && queue[0].Valid()
    ensures current[0] == AsTree(queue[0].Model())
    ensures BinMirrors(queue[1..] + ChildNodes(queue[0]), current[1..] + (next + current[0].children), R)
  {
    var visit, t := queue[0], current[0];
    assert (current + next)[0] == t;
    assert (current + next)[1..] == current[1..] + next;
    BinMirrorsChildNodes(visit, R);
    BinMirrorsAppend(queue[1..], current[1..] + next, ChildNodes(visit), t.children, R);
    Trees.Regroup(current[1..], next, t.children);
  }

  /** The queue after appending the left child of n and then its right child, when present. */
  function EnqueueChildren(queue: seq<NodeBST>, n: NodeBST): (queued: seq<NodeBST>)
    reads n
    ensures queued == queue + ChildNodes(n)
  {
    var withLeft := if n.left != null then queue + [n.left] else queue;
    if n.right != null then withLeft + [n.right] else withLeft
  }

  /** Breadth-first traversal with an explicit queue: take the front node, visit it,
      append its left child and then its right child. */
  method TraverseBreadthFirst(node: NodeBST) returns (visited: seq<int>)
    requires node.Valid()
    ensures visited == LevelOrder(node.Model())
  {
    ghost var R := {node} + node.Repr;
    ghost var whole := LevelOrder(node.Model());
    var queue: seq<NodeBST> := [node];
    // The subtrees below the queued nodes are current + next: the rest of the
    // level being visited, then the part of the next level found so far.
    ghost var current := [AsTree(node.Model())];
    ghost var next: seq<Trees.Tree> := [];
    visited := [];
    Trees.LevelPendingAdvance(current);
    BinMirrorsSingle(node, R);
    assert current + next == current;
    while queue != []
      invariant BinMirrors(queue, current + next, R)
      invariant visited + Trees.LevelPending(current, next) == whole
      decreases |whole| - |visited|
    {
      if current == [] {
        Trees.LevelPendingAdvance(next);
        assert [] + next == next + [];
        current, next := next, [];
      }
      BinBreadthFirstMirrors(queue, current, next, R);
      Trees.BreadthFirstVisit(visited, current, next, whole);
      var visit := queue[0];
      queue := queue[1..];
      visited := visited + [visit.data];
      queue := EnqueueChildren(queue, visit);
      next := next + current[0].children;
      current := current[1..];
    }
  }
}
