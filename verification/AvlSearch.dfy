/** Search in the AVL tree and the cost of a search (win32/raptor2/src/raptor_avltree.c). */
module AvlSearch {
  import opened AvlModel

  /** raptor_avltree_search_internal. */
  function Search(cmp: Compare, node: Node?, x: Item, ghost m: Tree, ghost up: Node?): (r: Node?)
    requires Linked(m, node, up)
    reads Nodes(m)
    ensures r != null ==> r in Nodes(m) && cmp(x, r.data) == 0
    decreases m
  {
    if node == null then null
    else
      var c := cmp(x, node.data);
      if c > 0 then Search(cmp, node.right, x, m.right, node)
      else if c < 0 then Search(cmp, node.left, x, m.left, node)
      else node
  }

  /** A search misses only what is not there. */
  lemma SearchComplete(cmp: Compare, node: Node?, x: Item, m: Tree, up: Node?)
    requires Linked(m, node, up) && Monotone(cmp, x, Items(m))
    ensures Search(cmp, node, x, m, up) == null ==> forall i :: 0 <= i < |Items(m)| ==> cmp(x, Items(m)[i]) != 0
    decreases m
  {
    if m.Br? {
      MonotoneParts(cmp, x, Items(m.left), m.data, Items(m.right));
      SearchComplete(cmp, node.left, x, m.left, node);
      SearchComplete(cmp, node.right, x, m.right, node);
    }
  }

  // ---------- cost ----------

  /** How many times a search (or an insertion) of `x` calls the comparison handler. */
  ghost function Comparisons(cmp: Compare, x: Item, m: Tree): nat {
    match m
    case Leaf => 0
    case Br(l, _, d, _, r) =>
      1 + if cmp(x, d) > 0 then Comparisons(cmp, x, r) else if cmp(x, d) < 0 then Comparisons(cmp, x, l) else 0
  }

  ghost function Fib(n: nat): nat {
    if n < 2 then n else Fib(n - 2) + Fib(n - 1)
  }

  lemma {:induction false} FibMonotone(i: nat, j: nat)
    requires i <= j
    ensures Fib(i) <= Fib(j)
    decreases j
  {
    if i < j {
      FibMonotone(i, j - 1);
    }
  }

  lemma FibStep(n: nat)
    ensures Fib(n + 2) == Fib(n) + Fib(n + 1) && Fib(2) == 1
  {
  }

  /** An AVL tree of height h holds at least Fib(h + 2) - 1 items. */
  lemma {:induction false} SizeAtLeastFib(m: Tree)
    requires Avl(m)
    ensures |Items(m)| >= Fib(Height(m) + 2) - 1
  {
    hide Fib;
    var h := Height(m);
    FibStep(h);
    if m.Br? {
      SizeAtLeastFib(m.left);
      SizeAtLeastFib(m.right);
      assert |Items(m)| == |Items(m.left)| + 1 + |Items(m.right)|;
      hide Items;
      if Height(m.left) < Height(m.right) {
        assert Height(m.right) + 2 == h + 1 && Height(m.left) + 2 >= h;
        FibMonotone(h, Height(m.left) + 2);
      } else {
        assert Height(m.left) + 2 == h + 1 && Height(m.right) + 2 >= h;
        FibMonotone(h, Height(m.right) + 2);
      }
    }
  }

  lemma {:induction false} ComparisonsAtMostHeight(cmp: Compare, x: Item, m: Tree)
    ensures Comparisons(cmp, x, m) <= Height(m)
  {
    if m.Br? {
      ComparisonsAtMostHeight(cmp, x, m.left);
      ComparisonsAtMostHeight(cmp, x, m.right);
    }
  }

  ghost function Pow2(n: nat): nat {
    if n == 0 then 1 else 2 * Pow2(n - 1)
  }

  lemma {:induction false} FibGrows(n: nat)
    ensures Fib(n + 2) >= Pow2((n + 1) / 2)
  {
    if n >= 2 {
      FibGrows(n - 2);
      FibMonotone(n, n + 1);
      assert (n + 1) / 2 == (n - 1) / 2 + 1;
    }
  }

  /** Searching n items takes c comparisons only if 2^ceil(c/2) <= n + 1: at most about
      twice the binary logarithm of the size. */
  lemma LogarithmicSearch(cmp: Compare, x: Item, m: Tree)
    requires Avl(m)
    ensures Pow2((Comparisons(cmp, x, m) + 1) / 2) <= |Items(m)| + 1
  {
    var c := Comparisons(cmp, x, m);
    ComparisonsAtMostHeight(cmp, x, m);
    SizeAtLeastFib(m);
    FibGrows(c);
    FibMonotone(c + 2, Height(m) + 2);
  }
}
