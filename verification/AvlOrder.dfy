/** Positions in the AVL tree: the in-order index of a node, and how parent and child links
    move it (win32/raptor2/src/raptor_avltree.c). */
module AvlOrder {
  import opened AvlModel
  import opened AvlSearch
  import opened Options

  /** The nodes in order. */
  ghost function InOrder(t: Tree): seq<Node> {
    match t
    case Leaf => []
    case Br(l, n, _, _, r) => InOrder(l) + [n] + InOrder(r)
  }

  /** The subtree at node `x`. */
  ghost function Sub(t: Tree, x: Node): (s: Tree)
    requires x in Nodes(t)
    ensures s.Br? && s.node == x
  {
    if x == t.node then t else if x in Nodes(t.left) then Sub(t.left, x) else Sub(t.right, x)
  }

  /** Where the in-order segment of that subtree starts. */
  ghost function First(t: Tree, x: Node): nat
    requires x in Nodes(t)
  {
    if x == t.node then 0
    else if x in Nodes(t.left) then First(t.left, x)
    else |InOrder(t.left)| + 1 + First(t.right, x)
  }

  /** The in-order index of a node. */
  ghost function Index(t: Tree, x: Node): int
    requires x in Nodes(t)
  {
    First(t, x) + |InOrder(Sub(t, x).left)|
  }

  lemma {:induction false} InOrderItems(t: Tree, n: Node?, p: Node?)
    requires Linked(t, n, p)
    ensures |InOrder(t)| == |Items(t)|
    ensures forall i :: 0 <= i < |InOrder(t)| ==> InOrder(t)[i] in Nodes(t) && InOrder(t)[i].data == Items(t)[i]
    decreases t
  {
    if t.Br? {
      InOrderItems(t.left, n.left, n);
      InOrderItems(t.right, n.right, n);
    }
  }

  /** The subtree at a node fills its segment of the order. */
  lemma {:induction false} IndexOf(t: Tree, x: Node)
    requires x in Nodes(t)
    ensures First(t, x) + |InOrder(Sub(t, x))| <= |InOrder(t)|
    ensures 0 <= Index(t, x) < |InOrder(t)| && InOrder(t)[Index(t, x)] == x
    ensures Index(t, x) < First(t, x) + |InOrder(Sub(t, x))|
  {
    if x == t.node {
    } else if x in Nodes(t.left) {
      IndexOf(t.left, x);
      assert InOrder(t)[Index(t.left, x)] == InOrder(t.left)[Index(t.left, x)];
    } else {
      IndexOf(t.right, x);
      var i := Index(t.right, x);
      assert InOrder(t)[|InOrder(t.left)| + 1 + i] == InOrder(t.right)[i];
    }
  }

  /** A child's segment lies before or after its parent within the parent's segment. */
  lemma {:induction false} ParentOf(t: Tree, n: Node?, p: Node?, x: Node)
    requires Linked(t, n, p) && x in Nodes(t)
    ensures x == t.node ==> x.parent == p
    ensures x != t.node ==> x.parent != null && x.parent in Nodes(t)
    ensures x != t.node ==>
              var q, s := Sub(t, x.parent), Sub(t, x);
              || (x.parent.left == x && x.parent.right != x && s == q.left && First(t, x) == First(t, x.parent))
              || (x.parent.right == x && x.parent.left != x && s == q.right && First(t, x) == First(t, x.parent) + |InOrder(q.left)| + 1)
    decreases t
  {
    if x == t.node {
    } else if x in Nodes(t.left) {
      assert Linked(t.left, n.left, n) && Linked(t.right, n.right, n);
      ParentOf(t.left, n.left, n, x);
      if x == t.left.node {
        assert x.parent == n && n.left == x && n.right != x;
        assert Sub(t, n) == t && Sub(t, x) == t.left;
      } else {
        assert x.parent in Nodes(t.left);
      }
    } else {
      assert Linked(t.left, n.left, n) && Linked(t.right, n.right, n);
      ParentOf(t.right, n.right, n, x);
      if x == t.right.node {
        assert x.parent == n && n.right == x && n.left != x;
        assert Sub(t, n) == t && Sub(t, x) == t.right;
      } else {
        assert x.parent in Nodes(t.right) && x.parent !in Nodes(t.left);
      }
    }
  }

  /** The children of a node, with their segments. */
  lemma {:induction false} ChildrenOf(t: Tree, n: Node?, p: Node?, x: Node)
    requires Linked(t, n, p) && x in Nodes(t)
    ensures var s := Sub(t, x);
            && (x.left == null <==> s.left == Leaf) && (x.right == null <==> s.right == Leaf)
            && (x.left != null ==> x.left in Nodes(t) && Sub(t, x.left) == s.left && First(t, x.left) == First(t, x))
            && (x.right != null ==> x.right in Nodes(t) && Sub(t, x.right) == s.right && First(t, x.right) == Index(t, x) + 1)
    decreases t
  {
    if x == t.node {
    } else if x in Nodes(t.left) {
      ChildrenOf(t.left, n.left, n, x);
    } else {
      ChildrenOf(t.right, n.right, n, x);
    }
  }

  /** One past the end of the in-order segment of the subtree at `x`. */
  ghost function End(t: Tree, x: Node): nat
    requires x in Nodes(t)
  {
    First(t, x) + |InOrder(Sub(t, x))|
  }

  /** An item of the tree falls in the range, or there is no range. */
  ghost predicate Matches(cmp: Compare, range: Option<Item>, d: Item) {
    range.Some? ==> cmp(range.value, d) == 0
  }

  lemma ItemsAt(t: Tree)
    requires t.Br?
    ensures var s, n := Items(t), |Items(t.left)|;
            && s[n] == t.data
            && (forall i :: 0 <= i < n ==> s[i] == Items(t.left)[i])
            && (forall i :: n < i < |s| ==> s[i] == Items(t.right)[i - n - 1])
  {
    hide Items;
    ItemsParts(t);
    Middle(Items(t), Items(t.left), t.data, Items(t.right));
  }

  lemma ItemsParts(t: Tree)
    requires t.Br?
    ensures Items(t) == Items(t.left) + [t.data] + Items(t.right)
  {
  }

  lemma Middle(s: seq<Item>, l: seq<Item>, d: Item, r: seq<Item>)
    requires s == l + [d] + r
    ensures s[|l|] == d
    ensures forall i :: 0 <= i < |l| ==> s[i] == l[i]
    ensures forall i :: |l| < i < |s| ==> s[i] == r[i - |l| - 1]
  {
  }

  /** A search for a range stops at the topmost match: every match lies below it, and its parent
      is not one. */
  lemma {:induction false} TopMatch(cmp: Compare, node: Node?, x: Item, t: Tree, up: Node?)
    requires Linked(t, node, up) && Monotone(cmp, x, Items(t))
    ensures var r := Search(cmp, node, x, t, up);
            && (r != null ==> forall i :: 0 <= i < |Items(t)| && cmp(x, Items(t)[i]) == 0 ==> First(t, r) <= i < End(t, r))
            && (r != null && r != t.node ==> r.parent != null && r.parent in Nodes(t) && cmp(x, r.parent.data) != 0)
    decreases t
  {
    if t.Br? {
      MonotoneParts(cmp, x, Items(t.left), t.data, Items(t.right));
      InOrderItems(t, node, up);
      InOrderItems(t.left, node.left, node);
      ItemsAt(t);
      var c := cmp(x, node.data);
      if c > 0 {
        TopMatch(cmp, node.right, x, t.right, node);
      } else if c < 0 {
        TopMatch(cmp, node.left, x, t.left, node);
      }
    }
  }
}
