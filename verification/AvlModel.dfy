/** The AVL tree of win32/raptor2/src/raptor_avltree.c: heap nodes, the tree value they
    represent, and the facts about in-order sequences that both insertion and removal need. */
module AvlModel {
  /** The items are opaque pointers to the tree; only the comparison handler looks at them. */
  type Item(==, !new)

  class Node {
    var parent: Node?
    var left: Node?
    var right: Node?
    var balance: int
    var data: Item

    constructor (parent: Node?, data: Item)
      ensures this.parent == parent && left == null && right == null && balance == 0 && this.data == data
    {
      this.parent, left, right, balance, this.data := parent, null, null, 0, data;
    }
  }

  /** The value of a subtree: which node sits where, and what each node stores. */
  datatype Tree = Leaf | Br(left: Tree, node: Node, data: Item, balance: int, right: Tree)

  ghost function Nodes(t: Tree): set<Node> {
    match t
    case Leaf => {}
    case Br(l, n, _, _, r) => Nodes(l) + {n} + Nodes(r)
  }

  ghost function Items(t: Tree): seq<Item> {
    match t
    case Leaf => []
    case Br(l, _, d, _, r) => Items(l) + [d] + Items(r)
  }

  ghost function Height(t: Tree): nat {
    match t
    case Leaf => 0
    case Br(l, _, _, _, r) => 1 + if Height(l) < Height(r) then Height(r) else Height(l)
  }

  /** Every balance byte is right height minus left height, and lies in -1..1. */
  ghost predicate Avl(t: Tree) {
    match t
    case Leaf => true
    case Br(l, _, _, b, r) => b == Height(r) - Height(l) && -1 <= b <= 1 && Avl(l) && Avl(r)
  }

  /** The heap below `n` is exactly the tree `t`, hanging under parent `p`: child links,
      parent links, data and balance bytes all agree, and no node occurs twice. */
  ghost predicate Linked(t: Tree, n: Node?, p: Node?)
    reads Nodes(t)
    ensures Linked(t, n, p) ==> (n == null <==> t == Leaf)
    ensures Linked(t, n, p) && n != null ==> n == t.node && n in Nodes(t)
  {
    match t
    case Leaf => n == null
    case Br(l, x, d, b, r) =>
      && n == x && x.parent == p && x.data == d && x.balance == b
      && x !in Nodes(l) && x !in Nodes(r) && Nodes(l) !! Nodes(r)
      && Linked(l, x.left, x) && Linked(r, x.right, x)
  }

  // ---------- ordering ----------

  type Compare = (Item, Item) -> int

  ghost predicate Sorted(cmp: Compare, s: seq<Item>) {
    forall i, j :: 0 <= i < j < |s| ==> cmp(s[i], s[j]) < 0
  }

  /** Comparing `x` with the items from left to right never turns from "smaller" back to "equal"
      or "greater".  A probe may be equal to several items: that is a range. */
  ghost predicate Monotone(cmp: Compare, x: Item, s: seq<Item>) {
    forall i, j :: 0 <= i < j < |s| ==> (cmp(x, s[i]) < 0 ==> cmp(x, s[j]) < 0) && (cmp(x, s[j]) > 0 ==> cmp(x, s[i]) > 0)
  }

  /** ... and it compares the same from either side. */
  ghost predicate Probe(cmp: Compare, x: Item, s: seq<Item>) {
    && Monotone(cmp, x, s)
    && forall i :: 0 <= i < |s| ==> (cmp(x, s[i]) < 0 <==> cmp(s[i], x) > 0) && (cmp(x, s[i]) > 0 <==> cmp(s[i], x) < 0)
  }

  /** A probe that is equivalent to at most one item: what can be stored. */
  ghost predicate Key(cmp: Compare, x: Item, s: seq<Item>) {
    Probe(cmp, x, s) && forall i, j :: 0 <= i < j < |s| ==> cmp(x, s[i]) != 0 || cmp(x, s[j]) != 0
  }

  /** A comparison handler that is a three-way comparison of a total preorder on `dom`. */
  ghost predicate Ordering(cmp: Compare, dom: iset<Item>) {
    && (forall x, y :: x in dom && y in dom ==> (cmp(x, y) < 0 <==> cmp(y, x) > 0))
    && (forall x, y, z :: x in dom && y in dom && z in dom && cmp(x, y) <= 0 && cmp(y, z) <= 0 ==> cmp(x, z) <= 0)
  }

  ghost predicate Within(s: seq<Item>, dom: iset<Item>) {
    forall i :: 0 <= i < |s| ==> s[i] in dom
  }

  /** `x` has no equivalent in `s` and belongs at position `k`. */
  ghost predicate Between(cmp: Compare, s: seq<Item>, x: Item, k: int) {
    && 0 <= k <= |s|
    && (forall i :: 0 <= i < k ==> cmp(s[i], x) < 0)
    && (forall i :: k <= i < |s| ==> cmp(x, s[i]) < 0)
  }

  ghost predicate Hit(cmp: Compare, s: seq<Item>, x: Item, k: int) {
    0 <= k < |s| && cmp(x, s[k]) == 0
  }

  function InsertAt(s: seq<Item>, x: Item, k: nat): seq<Item>
    requires k <= |s|
  {
    s[..k] + [x] + s[k..]
  }

  function DeleteAt(s: seq<Item>, k: nat): seq<Item>
    requires k < |s|
  {
    s[..k] + s[k + 1..]
  }

  lemma LessTransitive(cmp: Compare, dom: iset<Item>, x: Item, y: Item, z: Item)
    requires Ordering(cmp, dom) && x in dom && y in dom && z in dom
    requires (cmp(x, y) < 0 && cmp(y, z) <= 0) || (cmp(x, y) <= 0 && cmp(y, z) < 0)
    ensures cmp(x, z) < 0
  {
    assert cmp(y, z) <= 0 && cmp(z, x) <= 0 ==> cmp(y, x) <= 0;
    assert cmp(z, x) <= 0 && cmp(x, y) <= 0 ==> cmp(z, y) <= 0;
  }

  /** Where the handler orders all items, each of them can be stored, looked up and removed. */
  lemma ItemsAreKeys(cmp: Compare, dom: iset<Item>, x: Item, s: seq<Item>)
    requires Ordering(cmp, dom) && x in dom && Within(s, dom) && Sorted(cmp, s)
    ensures Key(cmp, x, s)
  {
    forall i, j | 0 <= i < j < |s|
      ensures (cmp(x, s[i]) < 0 ==> cmp(x, s[j]) < 0) && (cmp(x, s[j]) > 0 ==> cmp(x, s[i]) > 0) && (cmp(x, s[i]) != 0 || cmp(x, s[j]) != 0)
    {
      if cmp(x, s[i]) <= 0 {
        LessTransitive(cmp, dom, x, s[i], s[j]);
      }
      if cmp(x, s[j]) >= 0 {
        LessTransitive(cmp, dom, s[i], s[j], x);
      }
    }
  }

  lemma MonotoneParts(cmp: Compare, x: Item, l: seq<Item>, d: Item, r: seq<Item>)
    requires Monotone(cmp, x, l + [d] + r)
    ensures Monotone(cmp, x, l) && Monotone(cmp, x, r)
    ensures cmp(x, d) <= 0 ==> forall i :: 0 <= i < |r| ==> cmp(x, r[i]) <= 0
    ensures cmp(x, d) < 0 ==> forall i :: 0 <= i < |r| ==> cmp(x, r[i]) < 0
    ensures cmp(x, d) > 0 ==> forall i :: 0 <= i < |l| ==> cmp(x, l[i]) > 0
  {
    var s := l + [d] + r;
    assert forall i :: 0 <= i < |l| ==> s[i] == l[i];
    assert s[|l|] == d;
    assert forall i :: 0 <= i < |r| ==> s[|l| + 1 + i] == r[i];
  }

  lemma ProbeParts(cmp: Compare, x: Item, l: seq<Item>, d: Item, r: seq<Item>)
    requires Probe(cmp, x, l + [d] + r)
    ensures Probe(cmp, x, l) && Probe(cmp, x, r) && Probe(cmp, x, [d])
    ensures (cmp(x, d) < 0 <==> cmp(d, x) > 0) && (cmp(x, d) > 0 <==> cmp(d, x) < 0)
  {
    MonotoneParts(cmp, x, l, d, r);
    var s := l + [d] + r;
    assert forall i :: 0 <= i < |l| ==> s[i] == l[i];
    assert s[|l|] == d;
    assert forall i :: 0 <= i < |r| ==> s[|l| + 1 + i] == r[i];
  }

  lemma EditLeft(l: seq<Item>, d: Item, r: seq<Item>, x: Item, k: nat)
    requires k <= |l|
    ensures InsertAt(l, x, k) + [d] + r == InsertAt(l + [d] + r, x, k)
    ensures k < |l| ==> l[k := x] + [d] + r == (l + [d] + r)[k := x]
    ensures k < |l| ==> DeleteAt(l, k) + [d] + r == DeleteAt(l + [d] + r, k)
  {
    var s := l + [d] + r;
    assert s[..k] == l[..k] && s[k..] == l[k..] + [d] + r;
    if k < |l| {
      assert s[k + 1..] == l[k + 1..] + [d] + r;
    }
  }

  lemma EditRight(l: seq<Item>, d: Item, r: seq<Item>, x: Item, k: nat)
    requires k <= |r|
    ensures l + [d] + InsertAt(r, x, k) == InsertAt(l + [d] + r, x, |l| + 1 + k)
    ensures k < |r| ==> l + [d] + r[k := x] == (l + [d] + r)[|l| + 1 + k := x]
    ensures k < |r| ==> l + [d] + DeleteAt(r, k) == DeleteAt(l + [d] + r, |l| + 1 + k)
  {
    var s := l + [d] + r;
    assert s[..|l| + 1 + k] == l + [d] + r[..k] && s[|l| + 1 + k..] == r[k..];
    if k < |r| {
      assert s[|l| + 2 + k..] == r[k + 1..];
    }
  }

  /** A position found in the left part is the position in the whole. */
  lemma GoLeft(cmp: Compare, l: seq<Item>, d: Item, r: seq<Item>, x: Item, k: int)
    requires Probe(cmp, x, l + [d] + r)
    requires cmp(x, d) < 0
    ensures Between(cmp, l, x, k) ==> Between(cmp, l + [d] + r, x, k)
    ensures Hit(cmp, l, x, k) ==> Hit(cmp, l + [d] + r, x, k) && l[k] == (l + [d] + r)[k]
  {
    MonotoneParts(cmp, x, l, d, r);
  }

  /** A position found in the right part shifts by what stands before it. */
  lemma GoRight(cmp: Compare, l: seq<Item>, d: Item, r: seq<Item>, x: Item, k: int)
    requires Probe(cmp, x, l + [d] + r)
    requires cmp(x, d) > 0
    ensures Between(cmp, r, x, k) ==> Between(cmp, l + [d] + r, x, |l| + 1 + k)
    ensures Hit(cmp, r, x, k) ==> Hit(cmp, l + [d] + r, x, |l| + 1 + k) && r[k] == (l + [d] + r)[|l| + 1 + k]
  {
    MonotoneParts(cmp, x, l, d, r);
    ProbeParts(cmp, x, l, d, r);
  }

  /** Storing `x` at the position `Between` names keeps the sequence sorted. */
  lemma InsertSorted(cmp: Compare, s: seq<Item>, x: Item, k: nat)
    requires Sorted(cmp, s) && Between(cmp, s, x, k)
    ensures Sorted(cmp, InsertAt(s, x, k))
  {
  }

  lemma ReplaceSorted(cmp: Compare, s: seq<Item>, x: Item, k: nat)
    requires Sorted(cmp, s) && Key(cmp, x, s) && Hit(cmp, s, x, k)
    ensures Sorted(cmp, s[k := x])
  {
    var t := s[k := x];
    forall i, j | 0 <= i < j < |s| ensures cmp(t[i], t[j]) < 0 {
      if i == k {
        assert cmp(x, s[j]) != 0 && !(cmp(x, s[j]) > 0);
      } else if j == k {
        assert cmp(x, s[i]) != 0 && !(cmp(x, s[i]) < 0);
      }
    }
  }

  lemma DeleteSorted(cmp: Compare, s: seq<Item>, k: nat)
    requires Sorted(cmp, s) && k < |s|
    ensures Sorted(cmp, DeleteAt(s, k))
  {
  }
}
