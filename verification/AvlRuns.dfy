/** Whole runs over the AVL tree (win32/raptor2/src/raptor_avltree.c): what a tree holds after any
    sequence of insertions and removals, and a range over several of its items. */
module AvlRuns {
  import opened AvlModel
  import opened AvlOrder
  import opened AvlTree
  import opened AvlIterator
  import opened Options

  datatype Op = Insert(item: Item) | Erase(item: Item)

  ghost predicate Has(cmp: Compare, s: seq<Item>, x: Item) {
    exists i :: 0 <= i < |s| && cmp(x, s[i]) == 0
  }

  /** The last operation on an equivalent of `x` was an insertion. */
  ghost predicate Present(cmp: Compare, ops: seq<Op>, x: Item) {
    ops != [] &&
    var op := ops[|ops| - 1];
    if cmp(x, op.item) == 0 then op.Insert? else Present(cmp, ops[..|ops| - 1], x)
  }

  ghost predicate OpsWithin(ops: seq<Op>, dom: iset<Item>) {
    forall i :: 0 <= i < |ops| ==> ops[i].item in dom
  }

  /** Equivalents compare alike. */
  lemma Alike(cmp: Compare, dom: iset<Item>, x: Item, y: Item, z: Item)
    requires Ordering(cmp, dom) && x in dom && y in dom && z in dom && cmp(y, z) == 0
    ensures cmp(x, y) == 0 <==> cmp(x, z) == 0
  {
    assert cmp(x, y) == 0 ==> cmp(y, x) <= 0 && cmp(z, y) <= 0;
    assert cmp(x, z) == 0 ==> cmp(z, x) <= 0 && cmp(z, y) <= 0;
  }

  lemma InsertMembers(t: AvlTree, dom: iset<Item>, s: seq<Item>, s': seq<Item>, x: Item, rc: int, k: nat, y: Item)
    requires Ordering(t.cmp, dom) && Within(s, dom) && x in dom && y in dom && t.Added(s, s', x, true, rc, k)
    ensures Within(s', dom)
    ensures Has(t.cmp, s', y) <==> t.cmp(y, x) == 0 || Has(t.cmp, s, y)
  {
    if Hit(t.cmp, s, x, k) {
      Alike(t.cmp, dom, y, x, s[k]);
      assert t.replacing ==> s'[k] == x && forall i :: 0 <= i < |s| && i != k ==> s'[i] == s[i];
    } else {
      assert s'[k] == x;
      assert forall i :: 0 <= i < |s| ==> s[i] == s'[if i < k then i else i + 1];
    }
  }

  lemma EraseMembers(t: AvlTree, dom: iset<Item>, s: seq<Item>, s': seq<Item>, x: Item, rdata: Option<Item>, k: nat, y: Item)
    requires Ordering(t.cmp, dom) && Within(s, dom) && Sorted(t.cmp, s) && x in dom && y in dom && t.Removed(s, s', x, rdata, k)
    ensures Within(s', dom)
    ensures Has(t.cmp, s', y) <==> t.cmp(y, x) != 0 && Has(t.cmp, s, y)
  {
    hide Ordering, Sorted, Probe;
    if rdata.Some? {
      ItemsAreKeys(t.cmp, dom, y, s);
      Alike(t.cmp, dom, y, x, s[k]);
      assert forall i :: 0 <= i < |s'| ==> s'[i] == s[if i < k then i else i + 1];
      assert forall i :: 0 <= i < |s| && i != k ==> s[i] == s'[if i < k then i else i - 1];
    } else if t.cmp(y, x) == 0 {
      forall i | 0 <= i < |s| ensures t.cmp(y, s[i]) != 0 {
        Alike(t.cmp, dom, s[i], y, x);
        Even(t.cmp, dom, s[i], x);
        Even(t.cmp, dom, s[i], y);
      }
    }
  }

  lemma Even(cmp: Compare, dom: iset<Item>, x: Item, y: Item)
    requires Ordering(cmp, dom) && x in dom && y in dom
    ensures cmp(x, y) == 0 <==> cmp(y, x) == 0
  {
  }

  /** After any run, an item is in the tree exactly when the last operation on an equivalent put it
      there. */
  method Run(tree: AvlTree, ops: seq<Op>, ghost dom: iset<Item>)
    requires tree.Valid() && Items(tree.tree) == [] && Ordering(tree.cmp, dom) && OpsWithin(ops, dom)
    modifies tree, Nodes(tree.tree)
    ensures tree.Valid() && Within(Items(tree.tree), dom)
    ensures forall x :: x in dom ==> (Has(tree.cmp, Items(tree.tree), x) <==> Present(tree.cmp, ops, x))
  {
    hide Ordering, Avl, Linked, Items, Sorted, Height, Key, Probe, Monotone;
    for n := 0 to |ops|
      invariant tree.Valid() && Within(Items(tree.tree), dom)
      invariant forall m :: m in Nodes(tree.tree) ==> m in old(Nodes(tree.tree)) || fresh(m)
      invariant forall x :: x in dom ==> (Has(tree.cmp, Items(tree.tree), x) <==> Present(tree.cmp, ops[..n], x))
    {
      ghost var s, before := Items(tree.tree), Nodes(tree.tree);
      var x := ops[n].item;
      ItemsAreKeys(tree.cmp, dom, x, s);
      KeysAreProbes(tree.cmp, x, s);
      assert ops[..n + 1][..n] == ops[..n];
      if ops[n].Insert? {
        var rc;
        ghost var k, calls;
        label adding:
        rc, k, calls := tree.Add(x, true);
        forall y | y in dom ensures Within(Items(tree.tree), dom) && (Has(tree.cmp, Items(tree.tree), y) <==> tree.cmp(y, x) == 0 || Has(tree.cmp, s, y)) {
          InsertMembers(tree, dom, s, Items(tree.tree), x, rc, k, y);
        }
        InsertMembers(tree, dom, s, Items(tree.tree), x, rc, k, x);
        forall m | m in Nodes(tree.tree) ensures m in old(Nodes(tree.tree)) || fresh(m) {
          assert m in before || fresh@adding(m);
        }
      } else {
        var rdata;
        ghost var k;
        rdata, k := tree.Remove(x);
        forall y | y in dom ensures Has(tree.cmp, Items(tree.tree), y) <==> tree.cmp(y, x) != 0 && Has(tree.cmp, s, y) {
          EraseMembers(tree, dom, s, Items(tree.tree), x, rdata, k, y);
        }
        EraseMembers(tree, dom, s, Items(tree.tree), x, rdata, k, x);
        assert Nodes(tree.tree) <= before;
      }
    }
    assert ops[..|ops|] == ops;
  }

  lemma KeysAreProbes(cmp: Compare, x: Item, s: seq<Item>)
    requires Key(cmp, x, s)
    ensures Probe(cmp, x, s)
  {
  }

  /** A handler that orders `a` before `b`, and takes `range` as equal to both. */
  function Spanning(a: Item, range: Item): Compare {
    (x: Item, y: Item) => if x == y || x == range || y == range then 0 else if x == a then -1 else 1
  }

  lemma Spans(t: AvlTree, a: Item, b: Item, range: Item)
    requires a != b && a != range && b != range && t.cmp == Spanning(a, range)
    ensures Key(t.cmp, b, []) && Key(t.cmp, a, [b]) && Monotone(t.cmp, range, [a, b])
    ensures forall s', rc, k: nat :: t.Added([], s', b, true, rc, k) ==> s' == [b]
    ensures forall s', rc, k: nat :: t.Added([b], s', a, true, rc, k) ==> s' == [a, b]
  {
    forall s', rc, k: nat | t.Added([], s', b, true, rc, k) ensures s' == [b] {
      assert k == 0 && s' == InsertAt([], b, 0);
    }
    forall s', rc, k: nat | t.Added([b], s', a, true, rc, k) ensures s' == [a, b] {
      assert t.cmp(a, [b][0]) < 0;
      assert k == 0 && s' == InsertAt([b], a, 0);
    }
  }

  lemma MatchingStep(cmp: Compare, range: Item, s: seq<Item>, x: Item)
    requires cmp(range, x) == 0
    ensures Matching(cmp, Some(range), s + [x]) == Matching(cmp, Some(range), s) + [x] && Reverse([x] + s) == Reverse(s) + [x]
  {
    assert (s + [x])[..|s|] == s && ([x] + s)[1..] == s;
  }

  lemma MatchesTwo(cmp: Compare, a: Item, b: Item, range: Item)
    requires cmp(range, a) == 0 && cmp(range, b) == 0
    ensures Matching(cmp, Some(range), [a, b]) == [a, b] && Reverse([a, b]) == [b, a]
  {
    hide Matching, Reverse;
    MatchesNone(cmp, range);
    MatchingStep(cmp, range, [], a);
    MatchingStep(cmp, range, [a], b);
    MatchingStep(cmp, range, [], b);
    MatchingStep(cmp, range, [b], a);
    assert [] + [a] == [a] && [a] + [b] == [a, b] && [b] + [] == [b] && [] + [b] == [b];
  }

  lemma MatchesNone(cmp: Compare, range: Item)
    ensures Matching(cmp, Some(range), []) == [] && Reverse([]) == []
  {
  }

  /** A tree of two items, and a range that matches both: the walk yields the two, in either order. */
  method RangeOfTwo(a: Item, b: Item, range: Item, direction: int) returns (items: seq<Item>)
    requires a != b && a != range && b != range
    ensures items == if direction < 0 then [b, a] else [a, b]
  {
    hide Avl, Linked, Sorted, Height, Key, Monotone, Matching, Reverse, Matches, Probe;
    var cmp := Spanning(a, range);
    var tree := new AvlTree(cmp, false, false);
    Spans(tree, a, b, range);
    MatchesTwo(cmp, a, b, range);
    KeysAreProbes(cmp, b, []);
    KeysAreProbes(cmp, a, [b]);
    var rc;
    ghost var k, calls;
    rc, k, calls := tree.Add(b, true);
    rc, k, calls := tree.Add(a, true);
    items := Collect(tree, Some(range), direction);
  }
}
