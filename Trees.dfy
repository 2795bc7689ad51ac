/** General (n-ary) trees: nodes that own an ordered list of children and point
    back to their parent, and the recursive and non-recursive traversals over them. */
module Trees {

  // ---------------------------------------------------------------------------
  // The value of a subtree and its traversal orders
  // ---------------------------------------------------------------------------

  /** A subtree as a value: the data at its root and its child subtrees, in order. */
  datatype Tree = Tree(data: int, children: seq<Tree>)

  function Size(t: Tree): nat
    decreases t, 1
  {
    1 + SizeAll(t.children)
  }

  function SizeAll(ts: seq<Tree>): nat
    decreases ts, 0
  {
    if ts == [] then 0 else Size(ts[0]) + SizeAll(ts[1..])
  }

  /** Recursive pre-order: the node, then each child's pre-order in turn. */
  function PreOrder(t: Tree): seq<int>
    decreases t, 1
  {
    [t.data] + PreOrderAll(t.children)
  }

  function PreOrderAll(ts: seq<Tree>): seq<int>
    decreases ts, 0
  {
    if ts == [] then [] else PreOrder(ts[0]) + PreOrderAll(ts[1..])
  }

  /** Recursive post-order: each child's post-order in turn, then the node. */
  function PostOrder(t: Tree): seq<int>
    decreases t, 1
  {
    PostOrderAll(t.children) + [t.data]
  }

  function PostOrderAll(ts: seq<Tree>): seq<int>
    decreases ts, 0
  {
    if ts == [] then [] else PostOrder(ts[0]) + PostOrderAll(ts[1..])
  }

  /** Recursive in-order of a general tree: the first half (rounded down) of the
      children, then the node, then the remaining children. */
  function InOrder(t: Tree): seq<int>
    decreases t, 1
  {
    var half := |t.children| / 2;
    InOrderRange(t.children, 0, half) + [t.data] + InOrderRange(t.children, half, |t.children|)
  }

  /** The in-orders of ts[lo], ..., ts[hi - 1], concatenated. */
  function InOrderRange(ts: seq<Tree>, lo: nat, hi: nat): seq<int>
    requires lo <= hi <= |ts|
    decreases ts, 0, hi - lo
  {
    if lo == hi then [] else InOrder(ts[lo]) + InOrderRange(ts, lo + 1, hi)
  }

  /** The data at the roots of a forest, in order. */
  function Roots(ts: seq<Tree>): (r: seq<int>)
    ensures |r| == |ts|
  {
    if ts == [] then [] else [ts[0].data] + Roots(ts[1..])
  }

  /** The children of every tree of a forest, in order: the next level down. */
  function ChildrenAll(ts: seq<Tree>): seq<Tree>
  {
    if ts == [] then [] else ts[0].children + ChildrenAll(ts[1..])
  }

  lemma {:induction false} SizeAllAppend(a: seq<Tree>, b: seq<Tree>)
    ensures SizeAll(a + b) == SizeAll(a) + SizeAll(b)
    decreases a
  {
    if a != [] {
      assert (a + b)[1..] == a[1..] + b;
      SizeAllAppend(a[1..], b);
    } else {
      assert a + b == b;
    }
  }

  /** Going one level down drops exactly the roots. */
  lemma {:induction false} SizeChildrenAll(ts: seq<Tree>)
    ensures SizeAll(ChildrenAll(ts)) == SizeAll(ts) - |ts|
    decreases ts
  {
    if ts != [] {
      SizeChildrenAll(ts[1..]);
      SizeAllAppend(ts[0].children, ChildrenAll(ts[1..]));
    }
  }

  /** Level order of a forest: all its roots, then the level order of the next level. */
  function LevelOrderAll(ts: seq<Tree>): seq<int>
    decreases SizeAll(ts)
  {
    if ts == [] then []
    else
      SizeChildrenAll(ts);
      Roots(ts) + LevelOrderAll(ChildrenAll(ts))
  }

  /** Breadth-first order: depth 0, then depth 1, and so on, each level left to right. */
  function LevelOrder(t: Tree): seq<int>
  {
    LevelOrderAll([t])
  }

  // ---------------------------------------------------------------------------
  // Facts about the orders
  // ---------------------------------------------------------------------------

  lemma {:induction false} PreOrderAllAppend(a: seq<Tree>, b: seq<Tree>)
    ensures PreOrderAll(a + b) == PreOrderAll(a) + PreOrderAll(b)
    decreases a
  {
    if a != [] {
      assert (a + b)[1..] == a[1..] + b;
      PreOrderAllAppend(a[1..], b);
    } else {
      assert a + b == b;
    }
  }

  lemma {:induction false} PostOrderAllAppend(a: seq<Tree>, b: seq<Tree>)
    ensures PostOrderAll(a + b) == PostOrderAll(a) + PostOrderAll(b)
    decreases a
  {
    if a != [] {
      assert (a + b)[1..] == a[1..] + b;
      PostOrderAllAppend(a[1..], b);
    } else {
      assert a + b == b;
    }
  }

  lemma {:induction false} RootsAppend(a: seq<Tree>, b: seq<Tree>)
    ensures Roots(a + b) == Roots(a) + Roots(b)
    decreases a
  {
    if a != [] {
      assert (a + b)[1..] == a[1..] + b;
      RootsAppend(a[1..], b);
    } else {
      assert a + b == b;
    }
  }

  lemma {:induction false} ChildrenAllAppend(a: seq<Tree>, b: seq<Tree>)
    ensures ChildrenAll(a + b) == ChildrenAll(a) + ChildrenAll(b)
    decreases a
  {
    if a != [] {
      assert (a + b)[1..] == a[1..] + b;
      ChildrenAllAppend(a[1..], b);
    } else {
      assert a + b == b;
    }
  }

  /** Every traversal order lists Size(t) values. */
  lemma {:induction false} TraversalLengths(t: Tree)
    ensures |PreOrder(t)| == Size(t) && |PostOrder(t)| == Size(t) && |InOrder(t)| == Size(t)
    decreases t, 1
  {
    TraversalLengthsAll(t.children);
    var half := |t.children| / 2;
    InOrderRangeSplit(t.children, 0, half, |t.children|);
  }

  lemma {:induction false} TraversalLengthsAll(ts: seq<Tree>)
    ensures |PreOrderAll(ts)| == SizeAll(ts) && |PostOrderAll(ts)| == SizeAll(ts)
    ensures |InOrderRange(ts, 0, |ts|)| == SizeAll(ts)
    decreases ts, 0
  {
    if ts != [] {
      TraversalLengths(ts[0]);
      TraversalLengthsAll(ts[1..]);
      InOrderRangeShift(ts, 1, |ts|);
    }
  }

  /** InOrderRange of ts from lo equals InOrderRange of ts[lo..] from 0. Used to
      relate range-based and list-based recursion. */
  lemma {:induction false} InOrderRangeShift(ts: seq<Tree>, lo: nat, hi: nat)
    requires lo <= hi <= |ts|
    ensures InOrderRange(ts, lo, hi) == InOrderRange(ts[lo..], 0, hi - lo)
    decreases hi - lo
  {
    if lo < hi {
      InOrderRangeShift(ts, lo + 1, hi);
      InOrderRangeShift(ts[lo..], 1, hi - lo);
      assert ts[lo..][1..] == ts[lo + 1..];
    }
  }

  lemma {:induction false} InOrderRangeSplit(ts: seq<Tree>, lo: nat, mid: nat, hi: nat)
    requires lo <= mid <= hi <= |ts|
    ensures InOrderRange(ts, lo, hi) == InOrderRange(ts, lo, mid) + InOrderRange(ts, mid, hi)
    decreases mid - lo
  {
    if lo < mid {
      InOrderRangeSplit(ts, lo + 1, mid, hi);
    }
  }

  /** The three recursive orders visit the same nodes: each is a permutation of
      the pre-order. */
  lemma {:induction false} TraversalsArePermutations(t: Tree)
    ensures multiset(PostOrder(t)) == multiset(PreOrder(t))
    ensures multiset(InOrder(t)) == multiset(PreOrder(t))
    decreases t, 1
  {
    TraversalsArePermutationsAll(t.children);
    var half := |t.children| / 2;
    InOrderRangeSplit(t.children, 0, half, |t.children|);
  }

  lemma {:induction false} TraversalsArePermutationsAll(ts: seq<Tree>)
    ensures multiset(PostOrderAll(ts)) == multiset(PreOrderAll(ts))
    ensures multiset(InOrderRange(ts, 0, |ts|)) == multiset(PreOrderAll(ts))
    decreases ts, 0
  {
    if ts != [] {
      TraversalsArePermutations(ts[0]);
      TraversalsArePermutationsAll(ts[1..]);
      InOrderRangeShift(ts, 1, |ts|);
      assert InOrderRange(ts, 0, |ts|) == InOrder(ts[0]) + InOrderRange(ts[1..], 0, |ts[1..]|);
      assert multiset(InOrderRange(ts, 0, |ts|))
          == multiset(InOrder(ts[0])) + multiset(InOrderRange(ts[1..], 0, |ts[1..]|));
      assert multiset(PreOrderAll(ts)) == multiset(PreOrder(ts[0])) + multiset(PreOrderAll(ts[1..]));
      assert multiset(PostOrderAll(ts)) == multiset(PostOrder(ts[0])) + multiset(PostOrderAll(ts[1..]));
    }
  }

  /** With at most one child the node comes first in in-order, as in pre-order;
      with two children the order is child 0, the node, child 1, as in a binary
      in-order. */
  lemma InOrderSmallFanOut(t: Tree)
    ensures |t.children| <= 1 ==> InOrder(t) == [t.data] + InOrderRange(t.children, 0, |t.children|)
    ensures |t.children| == 2 ==> InOrder(t) == InOrder(t.children[0]) + [t.data] + InOrder(t.children[1])
  {
    if |t.children| == 2 {
      assert InOrderRange(t.children, 0, 1) == InOrder(t.children[0]);
      assert InOrderRange(t.children, 1, 2) == InOrder(t.children[1]);
    }
  }

  /** As a multiset, the pre-order of a forest is its roots plus the pre-order of
      the next level down. */
  lemma {:induction false} PreOrderAllLevels(ts: seq<Tree>)
    ensures multiset(PreOrderAll(ts)) == multiset(Roots(ts)) + multiset(PreOrderAll(ChildrenAll(ts)))
    decreases ts
  {
    if ts != [] {
      PreOrderAllLevels(ts[1..]);
      PreOrderAllAppend(ts[0].children, ChildrenAll(ts[1..]));
    }
  }

  lemma {:induction false} LevelOrderAllIsPermutation(ts: seq<Tree>)
    ensures multiset(LevelOrderAll(ts)) == multiset(PreOrderAll(ts))
    decreases SizeAll(ts)
  {
    if ts != [] {
      SizeChildrenAll(ts);
      LevelOrderAllIsPermutation(ChildrenAll(ts));
      PreOrderAllLevels(ts);
    }
  }

  /** Breadth-first order visits every node exactly once: it is a permutation of
      the pre-order. */
  lemma LevelOrderIsPermutation(t: Tree)
    ensures multiset(LevelOrder(t)) == multiset(PreOrder(t))
    ensures |LevelOrder(t)| == Size(t)
  {
    LevelOrderAllIsPermutation([t]);
    assert PreOrderAll([t]) == PreOrder(t) by {
      assert [t][1..] == [];
    }
    TraversalLengths(t);
  }

  /** Appending a childless child with value c puts c last among the children:
      pre-order gains c at the end, post-order gains c just before the node. */
  lemma AppendLeaf(t: Tree, c: int)
    ensures var t' := Tree(t.data, t.children + [Tree(c, [])]);
      && PreOrder(t') == PreOrder(t) + [c]
      && PostOrder(t') == PostOrderAll(t.children) + [c, t.data]
      && Size(t') == Size(t) + 1
  {
    var leaf := Tree(c, []);
    PreOrderAllAppend(t.children, [leaf]);
    PostOrderAllAppend(t.children, [leaf]);
    SizeAllAppend(t.children, [leaf]);
    assert PreOrderAll([leaf]) == [c] by { assert [leaf][1..] == []; }
    assert PostOrderAll([leaf]) == [c] by { assert [leaf][1..] == []; }
    assert SizeAll([leaf]) == 1 by { assert [leaf][1..] == []; }
  }

  // ---------------------------------------------------------------------------
  // Nodes on the heap
  // ---------------------------------------------------------------------------

  class Node {
    var data: int
    var parent: Node?
    var children: seq<Node>
    /** Steps from this node up to the root: 0 for a root, one more than the
        parent's for a child. Fixed when the node is made. */
    ghost const depth: nat

    /** A node with the given data under the given parent (none for a root).
        The parent's list of children is left alone, as in the source. */
    constructor (data: int, parent: Node?)
      ensures this.data == data && this.parent == parent && children == []
      ensures depth == if parent == null then 0 else parent.depth + 1
    {
      this.data := data;
      this.parent := parent;
      children := [];
      depth := if parent == null then 0 else parent.depth + 1;
    }

    /** Appends a new childless node holding childData to the children and
        returns it; its parent is this node. When this node belongs to a closed
        set of nodes, that set with the new child added is closed again. */
    method AddChild(childData: int, ghost nodes: set<Node>, ghost bound: nat) returns (child: Node)
      requires Closed(nodes, bound) && this in nodes
      modifies this`children
      ensures fresh(child)
      ensures child.data == childData && child.parent == this && child.children == []
      ensures child.depth == depth + 1
      ensures children == old(children) + [child]
      ensures Closed(nodes + {child}, if bound > depth + 1 then bound else depth + 2)
    {
      child := new Node(childData, this);
      children := children + [child];
    }

    predicate IsRoot()
      reads this
    {
      parent == null
    }

    predicate IsLeaf()
      reads this
    {
      children == []
    }
  }

  /** Following child links from the nodes of `nodes` stays in `nodes` and ends:
      each node has depth below `bound`, and its children are nodes of `nodes`
      deeper than it. A node listed under two parents is not excluded; TreeOf
      then reads its subtree once under each. */
  ghost predicate Closed(nodes: set<Node>, bound: nat)
    reads nodes
  {
    forall n :: n in nodes ==>
      n.depth < bound &&
      forall j :: 0 <= j < |n.children| ==> n.children[j] in nodes && n.children[j].depth > n.depth
  }

  /** The subtree below node n, as a value. */
  ghost function TreeOf(n: Node, nodes: set<Node>, bound: nat): Tree
    reads nodes
    requires Closed(nodes, bound) && n in nodes
    decreases bound - n.depth, 1, 0
  {
    Tree(n.data, TreesOf(n.children, n.depth, nodes, bound))
  }

  /** The subtrees below the nodes ns, all deeper than `above`, as values. */
  ghost function TreesOf(ns: seq<Node>, above: int, nodes: set<Node>, bound: nat): (ts: seq<Tree>)
    reads nodes
    requires Closed(nodes, bound) && above < bound
    requires forall j :: 0 <= j < |ns| ==> ns[j] in nodes && ns[j].depth > above
    ensures |ts| == |ns|
    ensures forall i :: 0 <= i < |ns| ==> ts[i] == TreeOf(ns[i], nodes, bound)
    decreases bound - above, 0, |ns|
  {
    if ns == [] then [] else [TreeOf(ns[0], nodes, bound)] + TreesOf(ns[1..], above, nodes, bound)
  }

  /** A leaf is a node whose subtree lists only itself. */
  lemma LeafTraversal(n: Node, nodes: set<Node>, bound: nat)
    requires Closed(nodes, bound) && n in nodes
    ensures n.IsLeaf() <==> PreOrder(TreeOf(n, nodes, bound)) == [n.data]
  {
    var t := TreeOf(n, nodes, bound);
    TraversalLengths(t);
    if t.children != [] {
      TraversalLengths(t.children[0]);
      PreOrderAllAppend([t.children[0]], t.children[1..]);
      assert [t.children[0]] + t.children[1..] == t.children;
      assert PreOrderAll([t.children[0]]) == PreOrder(t.children[0]) by {
        assert [t.children[0]][1..] == [];
      }
    }
  }

  // ---------------------------------------------------------------------------
  // Non-recursive traversals
  // ---------------------------------------------------------------------------

  /** Node n's children are nodes of `nodes`, and their subtrees are the children of n's subtree. */
  lemma ChildrenTrees(n: Node, nodes: set<Node>, bound: nat)
    requires Closed(nodes, bound) && n in nodes
    ensures |TreeOf(n, nodes, bound).children| == |n.children|
    ensures forall j :: 0 <= j < |n.children| ==>
      n.children[j] in nodes && TreeOf(n, nodes, bound).children[j] == TreeOf(n.children[j], nodes, bound)
  {
  }

  /** s from its last element to its first. */
  function Reversed<T>(s: seq<T>): (r: seq<T>)
    ensures |r| == |s|
  {
    if s == [] then [] else Reversed(s[1..]) + [s[0]]
  }

  /** The pre-orders of a stack of subtrees, top (last) first. */
  function PreOrderStack(ts: seq<Tree>): seq<int>
    decreases |ts|
  {
    if ts == [] then [] else PreOrder(ts[|ts| - 1]) + PreOrderStack(ts[..|ts| - 1])
  }

  /** Pushing a node's children last to first puts the first child on top, so the
      stack then yields the children's pre-orders in order, then the rest. */
  lemma {:induction false} PreOrderStackReversed(below: seq<Tree>, kids: seq<Tree>)
    ensures PreOrderStack(below + Reversed(kids)) == PreOrderAll(kids) + PreOrderStack(below)
    decreases |kids|
  {
    if kids == [] {
      assert below + Reversed(kids) == below;
    } else {
      var k := kids[0];
      var upper := below + Reversed(kids[1..]);
      PreOrderStackReversed(below, kids[1..]);
      assert below + Reversed(kids) == upper + [k];
      assert (upper + [k])[..|upper + [k]| - 1] == upper;
      assert PreOrderStack(upper + [k]) == PreOrder(k) + PreOrderStack(upper);
      Regroup(PreOrder(k), PreOrderAll(kids[1..]), PreOrderStack(below));
    }
  }

  /** One more element of s pushed in reverse order onto base. */
  lemma Pushed<T>(base: seq<T>, s: seq<T>, i: nat)
    requires 0 < i <= |s|
    ensures base + Reversed(s[i - 1..]) == base + Reversed(s[i..]) + [s[i - 1]]
  {
    assert s[i - 1..][1..] == s[i..];
  }

  /** One more element of s appended in order after base. */
  lemma Appended<T>(base: seq<T>, s: seq<T>, i: nat)
    requires i < |s|
    ensures base + s[..i + 1] == base + s[..i] + [s[i]]
  {
    assert s[..i + 1] == s[..i] + [s[i]];
  }

  /** Concatenation regrouped, with the pieces kept abstract. */
  lemma Regroup<T>(a: seq<T>, b: seq<T>, c: seq<T>)
    ensures a + (b + c) == (a + b) + c
  {
  }

  /** The stacked or queued nodes ns stand for the subtrees ts, position by position. */
  ghost predicate Mirrors(ns: seq<Node>, ts: seq<Tree>, nodes: set<Node>, bound: nat)
    reads nodes
    requires Closed(nodes, bound)
    decreases |ns|
  {
    && |ns| == |ts|
    && (ns != [] ==>
          && ns[0] in nodes && ts[0] == TreeOf(ns[0], nodes, bound)
          && Mirrors(ns[1..], ts[1..], nodes, bound))
  }

  lemma {:induction false} MirrorsAppend(a: seq<Node>, ta: seq<Tree>, b: seq<Node>, tb: seq<Tree>, nodes: set<Node>, bound: nat)
    requires Closed(nodes, bound)
    requires Mirrors(a, ta, nodes, bound) && Mirrors(b, tb, nodes, bound)
    ensures Mirrors(a + b, ta + tb, nodes, bound)
    decreases |a|
  {
    if a == [] {
      assert a + b == b && ta + tb == tb;
    } else {
      MirrorsAppend(a[1..], ta[1..], b, tb, nodes, bound);
      assert (a + b)[1..] == a[1..] + b;
      assert (ta + tb)[1..] == ta[1..] + tb;
    }
  }

  /** The top (last) of a mirrored stack stands for the last subtree, and the rest for the rest. */
  lemma {:induction false} MirrorsLast(ns: seq<Node>, ts: seq<Tree>, nodes: set<Node>, bound: nat)
    requires Closed(nodes, bound) && Mirrors(ns, ts, nodes, bound) && ns != []
    ensures ns[|ns| - 1] in nodes && ts[|ts| - 1] == TreeOf(ns[|ns| - 1], nodes, bound)
    ensures Mirrors(ns[..|ns| - 1], ts[..|ts| - 1], nodes, bound)
    decreases |ns|
  {
    if |ns| > 1 {
      MirrorsLast(ns[1..], ts[1..], nodes, bound);
      assert ns[1..][..|ns| - 2] == ns[..|ns| - 1][1..];
      assert ts[1..][..|ts| - 2] == ts[..|ts| - 1][1..];
    } else {
      assert ns[..0] == [] && ts[..0] == [];
    }
  }

  lemma MirrorsSingle(n: Node, nodes: set<Node>, bound: nat)
    requires Closed(nodes, bound) && n in nodes
    ensures Mirrors([n], [TreeOf(n, nodes, bound)], nodes, bound)
  {
    assert [n][1..] == [];
    assert [TreeOf(n, nodes, bound)][1..] == [];
  }

  /** Children of n from index i on stand for the child subtrees of n from index i on. */
  lemma {:induction false} MirrorsChildren(n: Node, i: nat, nodes: set<Node>, bound: nat)
    requires Closed(nodes, bound) && n in nodes && i <= |n.children|
    ensures Mirrors(n.children[i..], TreeOf(n, nodes, bound).children[i..], nodes, bound)
    decreases |n.children| - i
  {
    ChildrenTrees(n, nodes, bound);
    if i < |n.children| {
      MirrorsChildren(n, i + 1, nodes, bound);
      assert n.children[i..][1..] == n.children[i + 1..];
      assert TreeOf(n, nodes, bound).children[i..][1..] == TreeOf(n, nodes, bound).children[i + 1..];
    }
  }

  lemma {:induction false} MirrorsReversed(ns: seq<Node>, ts: seq<Tree>, nodes: set<Node>, bound: nat)
    requires Closed(nodes, bound) && Mirrors(ns, ts, nodes, bound)
    ensures Mirrors(Reversed(ns), Reversed(ts), nodes, bound)
    decreases |ns|
  {
    if ns != [] {
      MirrorsReversed(ns[1..], ts[1..], nodes, bound);
      MirrorsSingle(ns[0], nodes, bound);
      MirrorsAppend(Reversed(ns[1..]), Reversed(ts[1..]), [ns[0]], [ts[0]], nodes, bound);
    }
  }

  /** One round of the depth-first loop: popping node `visit` (whose subtree is on
      top of `forest`), visiting it and pushing its children last to first keeps
      the stack mirrored and keeps the visited order plus what the stack still
      yields equal to the whole pre-order. */
  lemma DepthFirstRound(visit: Node, base: seq<Node>, forest: seq<Tree>, nodes: set<Node>, bound: nat,
                        visited: seq<int>, whole: seq<int>)
    requires Closed(nodes, bound) && visit in nodes && forest != []
    requires forest[|forest| - 1] == TreeOf(visit, nodes, bound)
    requires Mirrors(base, forest[..|forest| - 1], nodes, bound)
    requires visited + PreOrderStack(forest) == whole
    ensures var t := forest[|forest| - 1];
      && Mirrors(base + Reversed(visit.children), forest[..|forest| - 1] + Reversed(t.children), nodes, bound)
      && (visited + [visit.data]) + PreOrderStack(forest[..|forest| - 1] + Reversed(t.children)) == whole
  {
    var t, below := forest[|forest| - 1], forest[..|forest| - 1];
    MirrorsChildren(visit, 0, nodes, bound);
    assert visit.children[0..] == visit.children && t.children[0..] == t.children;
    MirrorsReversed(visit.children, t.children, nodes, bound);
    MirrorsAppend(base, below, Reversed(visit.children), Reversed(t.children), nodes, bound);
    PreOrderStackReversed(below, t.children);
    assert PreOrderStack(forest) == [t.data] + PreOrderAll(t.children) + PreOrderStack(below);
    Regroup(visited, [t.data], PreOrderAll(t.children) + PreOrderStack(below));
    Regroup([t.data], PreOrderAll(t.children), PreOrderStack(below));
  }

  /** Depth-first traversal with an explicit stack: pop a node, visit it, push its
      children last to first so that the first child is on top. */
  method TraverseDepthFirst(node: Node, ghost nodes: set<Node>, ghost bound: nat) returns (visited: seq<int>)
    requires Closed(nodes, bound) && node in nodes
    ensures visited == PreOrder(TreeOf(node, nodes, bound))
  {
    ghost var whole := PreOrder(TreeOf(node, nodes, bound));
    var stack: seq<Node> := [node];
    ghost var forest := [TreeOf(node, nodes, bound)];  // the subtrees below the stacked nodes
    visited := [];
    MirrorsSingle(node, nodes, bound);
    assert PreOrderStack(forest) == whole by { assert forest[..0] == []; }
    while stack != []
      invariant Mirrors(stack, forest, nodes, bound)
      invariant visited + PreOrderStack(forest) == whole
      decreases |whole| - |visited|
    {
      MirrorsLast(stack, forest, nodes, bound);
      var visit := stack[|stack| - 1];
      stack := stack[..|stack| - 1];
      DepthFirstRound(visit, stack, forest, nodes, bound, visited, whole);
      visited := visited + [visit.data];
      ghost var base := stack;
      var i := |visit.children|;
      assert visit.children[i..] == [];
      while i != 0
        invariant 0 <= i <= |visit.children|
        invariant stack == base + Reversed(visit.children[i..])
      {
        Pushed(base, visit.children, i);
        i := i - 1;
        stack := stack + [visit.children[i]];
      }
      assert visit.children[0..] == visit.children;
      forest := forest[..|forest| - 1] + Reversed(forest[|forest| - 1].children);
    }
  }

  /** What remains of a breadth-first traversal when `current` holds the rest of
      the level being visited and `next` the part of the next level found so far. */
  function LevelPending(current: seq<Tree>, next: seq<Tree>): seq<int>
  {
    Roots(current) + LevelOrderAll(next + ChildrenAll(current))
  }

  /** Visiting the front of the current level and appending its children to the
      next level leaves the same remainder. */
  lemma LevelPendingStep(current: seq<Tree>, next: seq<Tree>)
    requires current != []
    ensures LevelPending(current, next) == [current[0].data] + LevelPending(current[1..], next + current[0].children)
  {
    var x := current[0];
    assert ChildrenAll(current) == x.children + ChildrenAll(current[1..]);
    Regroup(next, x.children, ChildrenAll(current[1..]));
  }

  /** When the current level is used up, the next level becomes current. */
  lemma LevelPendingAdvance(next: seq<Tree>)
    ensures LevelPending([], next) == LevelPending(next, [])
  {
    assert next + ChildrenAll([]) == next;
    assert [] + ChildrenAll(next) == ChildrenAll(next);
    if next != [] {
      assert LevelOrderAll(next) == Roots(next) + LevelOrderAll(ChildrenAll(next));
    }
  }

  /** One round of the breadth-first loop, on the values: visiting the front of
      the current level and appending its children to the next level keeps the
      visited order plus what is still pending equal to the whole level order. */
  lemma BreadthFirstVisit(visited: seq<int>, current: seq<Tree>, next: seq<Tree>, whole: seq<int>)
    requires current != [] && visited + LevelPending(current, next) == whole
    ensures (visited + [current[0].data]) + LevelPending(current[1..], next + current[0].children) == whole
  {
    LevelPendingStep(current, next);
    Regroup(visited, [current[0].data], LevelPending(current[1..], next + current[0].children));
  }

  /** One round of the breadth-first loop, on the nodes: taking the front node off
      the queue and appending its children keeps the queue mirroring the rest of
      the current level followed by the grown next level. */
  lemma BreadthFirstMirrors(queue: seq<Node>, current: seq<Tree>, next: seq<Tree>, nodes: set<Node>, bound: nat)
    requires Closed(nodes, bound) && Mirrors(queue, current + next, nodes, bound) && current != []
    ensures queue != [] && queue[0] in nodes && current[0] == TreeOf(queue[0], nodes, bound)
    ensures Mirrors(queue[1..] + queue[0].children, current[1..] + (next + current[0].children), nodes, bound)
  {
    var visit, t := queue[0], current[0];
    assert (current + next)[0] == t;
    assert (current + next)[1..] == current[1..] + next;
    MirrorsChildren(visit, 0, nodes, bound);
    assert visit.children[0..] == visit.children && t.children[0..] == t.children;
    MirrorsAppend(queue[1..], current[1..] + next, visit.children, t.children, nodes, bound);
    Regroup(current[1..], next, t.children);
  }

  /** Breadth-first traversal with an explicit queue: take the front node, visit it,
      append its children in order. */
  method TraverseBreadthFirst(node: Node, ghost nodes: set<Node>, ghost bound: nat) returns (visited: seq<int>)
    requires Closed(nodes, bound) && node in nodes
    ensures visited == LevelOrder(TreeOf(node, nodes, bound))
  {
    ghost var whole := LevelOrder(TreeOf(node, nodes, bound));
    var queue: seq<Node> := [node];
    // The subtrees below the queued nodes are current + next: the rest of the
    // level being visited, then the part of the next level found so far.
    ghost var current := [TreeOf(node, nodes, bound)];
    ghost var next: seq<Tree> := [];
    visited := [];
    LevelPendingAdvance(current);
    MirrorsSingle(node, nodes, bound);
    assert current + next == current;
    while queue != []
      invariant Mirrors(queue, current + next, nodes, bound)
      invariant visited + LevelPending(current, next) == whole
      decreases |whole| - |visited|
    {
      if current == [] {
        LevelPendingAdvance(next);
        assert [] + next == next + [];
        current, next := next, [];
      }
      BreadthFirstMirrors(queue, current, next, nodes, bound);
      BreadthFirstVisit(visited, current, next, whole);
      var visit := queue[0];
      assert visit.data == current[0].data;
      queue := queue[1..];
      visited := visited + [visit.data];
      ghost var base := queue;
      var i := 0;
      while i != |visit.children|
        invariant 0 <= i <= |visit.children|
        invariant queue == base + visit.children[..i]
      {
        Appended(base, visit.children, i);
        queue := queue + [visit.children[i]];
        i := i + 1;
      }
      assert visit.children[..i] == visit.children;
      next := next + current[0].children;
      current := current[1..];
    }
  }
}
