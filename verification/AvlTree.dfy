/** Insertion into and removal from the heap AVL tree (win32/raptor2/src/raptor_avltree.c). */
module AvlTree {
  import opened AvlModel
  import opened AvlBalance
  import opened AvlSearch
  import opened AvlOrder
  import opened Options

  const OK := 0
  const EXISTS := 1
  const ENOMEM := -1

  class AvlTree {
    var root: Node?
    /** The comparison handler. */
    const cmp: Compare
    /** Whether a free handler was given; `freed` lists the items passed to it, in order. */
    const freeing: bool
    var freed: seq<Item>
    /** RAPTOR_AVLTREE_FLAG_REPLACE_DUPLICATES. */
    const replacing: bool
    var size: nat
    /** The tree the heap holds. */
    ghost var tree: Tree

    ghost predicate Valid()
      reads this, Nodes(tree)
    {
      && Linked(tree, root, null)
      && Avl(tree)
      && Sorted(cmp, Items(tree))
      && size == |Items(tree)|
    }

    constructor (cmp: Compare, freeing: bool, replacing: bool)
      ensures Valid() && tree == Leaf && freed == []
      ensures this.cmp == cmp && this.freeing == freeing && this.replacing == replacing
    {
      root, size, freed, tree := null, 0, [], Leaf;
      this.cmp, this.freeing, this.replacing := cmp, freeing, replacing;
    }

    /** raptor_avltree_search_internal, counting the calls of the comparison handler. */
    method SearchInternal(node: Node?, x: Item, ghost m: Tree, ghost up: Node?) returns (r: Node?, ghost calls: nat)
      requires Linked(m, node, up)
      ensures Linked(m, node, up) && r == Search(cmp, node, x, m, up) && calls == Comparisons(cmp, x, m)
      decreases m
    {
      if node == null {
        return null, 0;
      }
      assert allocated(Nodes(m.left)) && allocated(Nodes(m.right));
      assert Linked(m.left, node.left, node) && Linked(m.right, node.right, node);
      var c := cmp(x, node.data);
      calls := 0;
      if c > 0 {
        r, calls := SearchInternal(node.right, x, m.right, node);
      } else if c < 0 {
        r, calls := SearchInternal(node.left, x, m.left, node);
      } else {
        r := node;
      }
      calls := calls + 1;
    }

    /** raptor_avltree_search; `calls` counts the calls of the comparison handler. */
    method Find(x: Item) returns (r: Option<Item>, ghost calls: nat)
      requires Valid() && Monotone(cmp, x, Items(tree))
      ensures var s := Items(tree);
              if r.Some? then exists k :: Hit(cmp, s, x, k) && r.value == s[k]
              else forall i :: 0 <= i < |s| ==> cmp(x, s[i]) != 0
      ensures Pow2((calls + 1) / 2) <= size + 1
    {
      LogarithmicSearch(cmp, x, tree);
      var node;
      node, calls := SearchInternal(root, x, tree, null);
      SearchComplete(cmp, root, x, tree, null);
      if node == null {
        r := None;
      } else {
        InOrderItems(tree, root, null);
        IndexOf(tree, node);
        assert Hit(cmp, Items(tree), x, Index(tree, node));
        r := Some(node.data);
      }
    }

    // ---------- insertion ----------

    /** What one insertion of `x` does to the in-order items: `k` is where `x` belongs, or where
        its equivalent stands.  `memory` says whether the node allocation succeeds. */
    ghost predicate Added(s: seq<Item>, s': seq<Item>, x: Item, memory: bool, rc: int, k: nat) {
      if Hit(cmp, s, x, k) then
        if replacing then rc == OK && s' == s[k := x] else rc == EXISTS && s' == s
      else
        Between(cmp, s, x, k) && if memory then rc == OK && s' == InsertAt(s, x, k) else rc == ENOMEM && s' == s
    }

    /** The items the insertion hands to the free handler. */
    ghost function FreedByAdd(s: seq<Item>, x: Item, memory: bool, k: nat): seq<Item> {
      if !freeing then []
      else if Hit(cmp, s, x, k) then if replacing then [s[k]] else [x]
      else if memory then [] else [x]
    }

    /** Nothing is lost: the old items and the one added are the new items and those handed to the free
        handler, if there is one, whether the item is inserted, takes another's place, is not needed, or
        finds no memory. */
    lemma AddConserves(s: seq<Item>, s': seq<Item>, x: Item, memory: bool, rc: int, k: nat)
      requires freeing && Added(s, s', x, memory, rc, k)
      ensures multiset(s) + multiset{x} == multiset(s') + multiset(FreedByAdd(s, x, memory, k))
    {
      hide Between, InsertAt;
      if Hit(cmp, s, x, k) {
        Exchanged(s, x, k);
      } else if memory {
        Inserted(s, x, k);
      }
    }

    lemma Exchanged(s: seq<Item>, x: Item, k: nat)
      requires k < |s|
      ensures multiset(s) + multiset{x} == multiset(s[k := x]) + multiset([s[k]])
    {
      var a, b := s[..k], s[k + 1..];
      assert s == a + [s[k]] + b && s[k := x] == a + [x] + b;
    }

    lemma Inserted(s: seq<Item>, x: Item, k: nat)
      requires Between(cmp, s, x, k)
      ensures k <= |s| && multiset(s) + multiset{x} == multiset(InsertAt(s, x, k))
    {
      assert s == s[..k] + s[k..];
    }

    lemma AddedLeft(l: seq<Item>, d: Item, r: seq<Item>, l': seq<Item>, x: Item, memory: bool, rc: int, k: nat)
      requires Probe(cmp, x, l + [d] + r) && cmp(x, d) < 0
      requires Added(l, l', x, memory, rc, k)
      ensures Added(l + [d] + r, l' + [d] + r, x, memory, rc, k)
      ensures FreedByAdd(l + [d] + r, x, memory, k) == FreedByAdd(l, x, memory, k)
    {
      GoLeft(cmp, l, d, r, x, k);
      EditLeft(l, d, r, x, k);
    }

    lemma AddedRight(l: seq<Item>, d: Item, r: seq<Item>, r': seq<Item>, x: Item, memory: bool, rc: int, k: nat, at: nat)
      requires Probe(cmp, x, l + [d] + r) && cmp(x, d) > 0
      requires Added(r, r', x, memory, rc, k) && at == |l| + 1 + k
      ensures Added(l + [d] + r, l + [d] + r', x, memory, rc, at)
      ensures FreedByAdd(l + [d] + r, x, memory, at) == FreedByAdd(r, x, memory, k)
    {
      GoRight(cmp, l, d, r, x, k);
      EditRight(l, d, r, x, k);
    }

    /** What sprouting `x` into the AVL subtree `m` must give: an AVL subtree with `x` added, one
        level taller exactly when the rebalancing flag is set. */
    ghost predicate Sprouted(m: Tree, m': Tree, x: Item, memory: bool, rc: int, rebalancing: bool, k: nat) {
      && Avl(m')
      && Added(Items(m), Items(m'), x, memory, rc, k)
      && Height(m') == Height(m) + (if rebalancing then 1 else 0)
      && (rc != OK ==> !rebalancing)
      && (rebalancing && m.Br? ==> m'.Br? && m'.balance != 0)
    }

    lemma SproutedLeft(m: Tree, l': Tree, x: Item, memory: bool, rc: int, rebalancing: bool, k: nat)
      requires m.Br? && Avl(m) && Probe(cmp, x, Items(m)) && cmp(x, m.data) < 0
      requires Sprouted(m.left, l', x, memory, rc, rebalancing, k)
      ensures var m1 := m.(left := l');
              if rebalancing then
                Stale(m1, 1, 0) && HeightBefore(m1, 1, 0) == Height(m) && l'.Br? && (l'.balance != 0 || Height(l') == 1)
                && Added(Items(m), Items(m1), x, memory, rc, k)
              else
                Sprouted(m, m1, x, memory, rc, false, k)
      ensures rc != OK ==> !rebalancing
      ensures |Items(m.(left := l'))| - |Items(m)| == |Items(l')| - |Items(m.left)|
      ensures FreedByAdd(Items(m), x, memory, k) == FreedByAdd(Items(m.left), x, memory, k)
    {
      hide Items, Added, FreedByAdd, Probe, Between, Hit;
      ItemsParts(m);
      ItemsParts(m.(left := l'));
      AddedLeft(Items(m.left), m.data, Items(m.right), Items(l'), x, memory, rc, k);
    }

    lemma SproutedRight(m: Tree, r': Tree, x: Item, memory: bool, rc: int, rebalancing: bool, k: nat, at: nat)
      requires m.Br? && Avl(m) && Probe(cmp, x, Items(m)) && cmp(x, m.data) > 0
      requires Sprouted(m.right, r', x, memory, rc, rebalancing, k) && at == |Items(m.left)| + 1 + k
      ensures var m1 := m.(right := r');
              if rebalancing then
                Stale(m1, 0, 1) && HeightBefore(m1, 0, 1) == Height(m) && r'.Br? && (r'.balance != 0 || Height(r') == 1)
                && Added(Items(m), Items(m1), x, memory, rc, at)
              else
                Sprouted(m, m1, x, memory, rc, false, at)
      ensures rc != OK ==> !rebalancing
      ensures |Items(m.(right := r'))| - |Items(m)| == |Items(r')| - |Items(m.right)|
      ensures FreedByAdd(Items(m), x, memory, at) == FreedByAdd(Items(m.right), x, memory, k)
    {
      hide Items, Added, FreedByAdd, Probe, Between, Hit;
      ItemsParts(m);
      ItemsParts(m.(right := r'));
      AddedRight(Items(m.left), m.data, Items(m.right), Items(r'), x, memory, rc, k, at);
    }

    /** Rebalancing keeps the items, so it completes the step. */
    lemma Settled(m: Tree, m1: Tree, m': Tree, x: Item, memory: bool, rc: int, k: nat, rebalancing: bool)
      requires Added(Items(m), Items(m1), x, memory, rc, k) && rc == OK
      requires Avl(m') && Items(m') == Items(m1) && Height(m') == Height(m) + if rebalancing then 1 else 0
      requires rebalancing ==> m'.Br? && m'.balance != 0
      ensures Sprouted(m, m', x, memory, rc, rebalancing, k)
    {
    }

    lemma AddedHere(l: seq<Item>, d: Item, r: seq<Item>, x: Item, memory: bool)
      requires cmp(x, d) == 0
      ensures var s := l + [d] + r;
              && Added(s, if replacing then l + [x] + r else s, x, memory, if replacing then OK else EXISTS, |l|)
              && FreedByAdd(s, x, memory, |l|) == if !freeing then [] else if replacing then [d] else [x]
    {
      var s := l + [d] + r;
      assert s[|l|] == d;
      assert l + [x] + r == s[|l| := x];
    }

    /** An item equivalent to `x` at the subtree root: replaced or kept, nothing moves. */
    lemma SproutedHere(m: Tree, x: Item, memory: bool)
      requires m.Br? && Avl(m) && cmp(x, m.data) == 0
      ensures var k := |Items(m.left)|;
              && Sprouted(m, if replacing then m.(data := x) else m, x, memory, if replacing then OK else EXISTS, false, k)
              && FreedByAdd(Items(m), x, memory, k) == if !freeing then [] else if replacing then [m.data] else [x]
      ensures |Items(m.(data := x))| == |Items(m)|
    {
      hide Added, FreedByAdd;
      AddedHere(Items(m.left), m.data, Items(m.right), x, memory);
    }

    lemma SproutedNoMemory(x: Item)
      ensures Sprouted(Leaf, Leaf, x, false, ENOMEM, false, 0) && FreedByAdd([], x, false, 0) == if freeing then [x] else []
    {
    }

    lemma SproutedNew(n: Node, x: Item)
      ensures var m' := Br(Leaf, n, x, 0, Leaf);
              Sprouted(Leaf, m', x, true, OK, true, 0) && FreedByAdd([], x, true, 0) == [] && Items(m') == [x]
    {
    }

    lemma Children(m: Tree, x: Item)
      requires m.Br? && Avl(m) && Probe(cmp, x, Items(m))
      ensures Avl(m.left) && Probe(cmp, x, Items(m.left)) && Avl(m.right) && Probe(cmp, x, Items(m.right))
      ensures (cmp(x, m.data) < 0 <==> cmp(m.data, x) > 0) && (cmp(x, m.data) > 0 <==> cmp(m.data, x) < 0)
    {
      hide Items;
      ItemsParts(m);
      ProbeParts(cmp, x, Items(m.left), m.data, Items(m.right));
    }

    /** raptor_avltree_sprout; `calls` counts the calls of the comparison handler. */
    method Sprout(node: Node?, parent: Node?, x: Item, memory: bool, ghost m: Tree)
      returns (r: Node?, rc: int, rebalancing: bool, ghost m': Tree, ghost k: nat, ghost calls: nat)
      requires Linked(m, node, parent) && Avl(m) && Probe(cmp, x, Items(m))
      modifies `size, `freed, Nodes(m)
      ensures Linked(m', r, parent) && Sprouted(m, m', x, memory, rc, rebalancing, k) && calls == Comparisons(cmp, x, m)
      ensures Nodes(m) <= Nodes(m') && fresh(Nodes(m') - Nodes(m))
      ensures freed == old(freed) + FreedByAdd(Items(m), x, memory, k)
      ensures size == old(size) + |Items(m')| - |Items(m)|
      decreases m, 1
    {
      hide Height, Avl, Probe, Sprouted, FreedByAdd, Added;
      if node == null {
        if !memory {
          if freeing { freed := freed + [x]; }
          SproutedNoMemory(x);
          return null, ENOMEM, false, Leaf, 0, 0;
        }
        var n := new Node(parent, x);
        SproutedNew(n, x);
        size := size + 1;
        return n, OK, true, Br(Leaf, n, x, 0, Leaf), 0, 0;
      }
      var c := cmp(x, node.data);
      if c < 0 {
        r, rc, rebalancing, m', k, calls := SproutLeft(node, x, memory, m, parent);
      } else if c > 0 {
        r, rc, rebalancing, m', k, calls := SproutRight(node, x, memory, m, parent);
      } else {
        SproutedHere(m, x, memory);
        r, rebalancing, k, calls := node, false, |Items(m.left)|, 1;
        if replacing {
          if freeing { freed := freed + [node.data]; }
          assert allocated(Nodes(m.left)) && allocated(Nodes(m.right));
          node.data := x;
          m' := m.(data := x);
          rc := OK;
        } else {
          if freeing { freed := freed + [x]; }
          m' := m;
          rc := EXISTS;
        }
      }
    }

    method SproutLeft(node: Node, x: Item, memory: bool, ghost m: Tree, ghost up: Node?)
      returns (r: Node, rc: int, rebalancing: bool, ghost m': Tree, ghost k: nat, ghost calls: nat)
      requires Linked(m, node, up) && Avl(m) && Probe(cmp, x, Items(m)) && cmp(x, node.data) < 0
      modifies `size, `freed, Nodes(m)
      ensures Linked(m', r, up) && Sprouted(m, m', x, memory, rc, rebalancing, k) && calls == Comparisons(cmp, x, m)
      ensures Nodes(m) <= Nodes(m') && fresh(Nodes(m') - Nodes(m))
      ensures freed == old(freed) + FreedByAdd(Items(m), x, memory, k)
      ensures size == old(size) + |Items(m')| - |Items(m)|
      decreases m, 0
    {
      hide Items, Height, Avl, Probe, Sprouted, FreedByAdd, Stale, Added, HeightBefore;
      Children(m, x);
      assert allocated(Nodes(m.left)) && allocated(Nodes(m.right));
      ghost var l';
      r := node;
      node.left, rc, rebalancing, l', k, calls := Sprout(node.left, node, x, memory, m.left);
      calls := calls + 1;
      m' := m.(left := l');
      SproutedLeft(m, l', x, memory, rc, rebalancing, k);
      assert Linked(m.right, node.right, node);
      if rc != 0 || !rebalancing {
        return;
      }
      r, rebalancing, m' := GrewLeft(node, m', up);
      Settled(m, m.(left := l'), m', x, memory, rc, k, rebalancing);
    }

    method SproutRight(node: Node, x: Item, memory: bool, ghost m: Tree, ghost up: Node?)
      returns (r: Node, rc: int, rebalancing: bool, ghost m': Tree, ghost k: nat, ghost calls: nat)
      requires Linked(m, node, up) && Avl(m) && Probe(cmp, x, Items(m)) && cmp(x, node.data) > 0
      modifies `size, `freed, Nodes(m)
      ensures Linked(m', r, up) && Sprouted(m, m', x, memory, rc, rebalancing, k) && calls == Comparisons(cmp, x, m)
      ensures Nodes(m) <= Nodes(m') && fresh(Nodes(m') - Nodes(m))
      ensures freed == old(freed) + FreedByAdd(Items(m), x, memory, k)
      ensures size == old(size) + |Items(m')| - |Items(m)|
      decreases m, 0
    {
      hide Items, Height, Avl, Probe, Sprouted, FreedByAdd, Stale, Added, HeightBefore;
      Children(m, x);
      assert allocated(Nodes(m.left)) && allocated(Nodes(m.right));
      ghost var r';
      r := node;
      node.right, rc, rebalancing, r', k, calls := Sprout(node.right, node, x, memory, m.right);
      calls := calls + 1;
      m' := m.(right := r');
      ghost var at := |Items(m.left)| + 1 + k;
      SproutedRight(m, r', x, memory, rc, rebalancing, k, at);
      k := at;
      assert Linked(m.left, node.left, node);
      if rc != 0 || !rebalancing {
        return;
      }
      r, rebalancing, m' := GrewRight(node, m', up);
      Settled(m, m.(right := r'), m', x, memory, rc, k, rebalancing);
    }

    lemma AddedSorted(s: seq<Item>, s': seq<Item>, x: Item, memory: bool, rc: int, k: nat)
      requires Sorted(cmp, s) && (replacing ==> Key(cmp, x, s)) && Added(s, s', x, memory, rc, k)
      ensures Sorted(cmp, s')
    {
      if Hit(cmp, s, x, k) {
        if replacing {
          ReplaceSorted(cmp, s, x, k);
        }
      } else {
        InsertSorted(cmp, s, x, k);
      }
    }

    /** raptor_avltree_add. */
    method Add(x: Item, memory: bool) returns (rc: int, ghost k: nat, ghost calls: nat)
      requires Valid() && Probe(cmp, x, Items(tree)) && (replacing ==> Key(cmp, x, Items(tree)))
      modifies this, Nodes(tree)
      ensures Valid() && fresh(Nodes(tree) - old(Nodes(tree)))
      ensures Added(old(Items(tree)), Items(tree), x, memory, rc, k)
      ensures freed == old(freed) + FreedByAdd(old(Items(tree)), x, memory, k)
      ensures Pow2((calls + 1) / 2) <= old(size) + 1
    {
      hide Items, Avl, Height, Sorted, Probe, Key, Added, FreedByAdd, Comparisons;
      LogarithmicSearch(cmp, x, tree);
      var rebalancing;
      ghost var was := Items(tree);
      root, rc, rebalancing, tree, k, calls := Sprout(root, null, x, memory, tree);
      AddedSorted(was, Items(tree), x, memory, rc, k);
    }

    // ---------- removal ----------

    /** What one removal of `x` does to the in-order items: `k` is where the equivalent of `x`
        stood, or where `x` would belong when nothing is equivalent to it. */
    ghost predicate Removed(s: seq<Item>, s': seq<Item>, x: Item, rdata: Option<Item>, k: nat) {
      if rdata.Some? then Hit(cmp, s, x, k) && rdata.value == s[k] && s' == DeleteAt(s, k)
      else Between(cmp, s, x, k) && s' == s
    }

    /** What deleting `x` from the AVL subtree `m` must give: an AVL subtree without it, one
        level lower exactly when the rebalancing flag is set. */
    ghost predicate Shrunk(m: Tree, m': Tree, x: Item, rdata: Option<Item>, rebalancing: bool, k: nat) {
      && Avl(m')
      && Removed(Items(m), Items(m'), x, rdata, k)
      && Height(m) == Height(m') + (if rebalancing then 1 else 0)
      && (rdata == None ==> !rebalancing && m' == m)
    }

    /** The node unlinked by a deletion is exactly the one the source frees. */
    ghost predicate Unlinked(m: Tree, m': Tree, gone: Node?) {
      Nodes(m') == Nodes(m) - {gone} && (gone != null ==> gone in Nodes(m))
    }

    lemma RemovedLeft(l: seq<Item>, d: Item, r: seq<Item>, l': seq<Item>, x: Item, rdata: Option<Item>, k: nat)
      requires Probe(cmp, x, l + [d] + r) && cmp(x, d) < 0
      requires Removed(l, l', x, rdata, k)
      ensures Removed(l + [d] + r, l' + [d] + r, x, rdata, k)
    {
      GoLeft(cmp, l, d, r, x, k);
      EditLeft(l, d, r, x, k);
    }

    lemma RemovedRight(l: seq<Item>, d: Item, r: seq<Item>, r': seq<Item>, x: Item, rdata: Option<Item>, k: nat)
      requires Probe(cmp, x, l + [d] + r) && cmp(x, d) > 0
      requires Removed(r, r', x, rdata, k)
      ensures Removed(l + [d] + r, l + [d] + r', x, rdata, |l| + 1 + k)
    {
      GoRight(cmp, l, d, r, x, k);
      EditRight(l, d, r, x, k);
    }

    lemma ShrunkLeft(m: Tree, l': Tree, x: Item, rdata: Option<Item>, rebalancing: bool, k: nat)
      requires m.Br? && Avl(m) && Probe(cmp, x, Items(m)) && cmp(x, m.data) < 0
      requires Shrunk(m.left, l', x, rdata, rebalancing, k)
      ensures var m1 := m.(left := l');
              && Removed(Items(m), Items(m1), x, rdata, k)
              && if rebalancing then Stale(m1, -1, 0) && HeightBefore(m1, -1, 0) == Height(m)
                 else Shrunk(m, m1, x, rdata, false, k)
      ensures rdata == None ==> !rebalancing && m.(left := l') == m
    {
      hide Items, Removed, Probe, Between, Hit;
      ItemsParts(m);
      ItemsParts(m.(left := l'));
      RemovedLeft(Items(m.left), m.data, Items(m.right), Items(l'), x, rdata, k);
    }

    lemma ShrunkRight(m: Tree, r': Tree, x: Item, rdata: Option<Item>, rebalancing: bool, k: nat)
      requires m.Br? && Avl(m) && Probe(cmp, x, Items(m)) && cmp(x, m.data) > 0
      requires Shrunk(m.right, r', x, rdata, rebalancing, k)
      ensures var m1, k1 := m.(right := r'), |Items(m.left)| + 1 + k;
              && Removed(Items(m), Items(m1), x, rdata, k1)
              && if rebalancing then Stale(m1, 0, -1) && HeightBefore(m1, 0, -1) == Height(m)
                 else Shrunk(m, m1, x, rdata, false, k1)
      ensures rdata == None ==> !rebalancing && m.(right := r') == m
    {
      hide Items, Removed, Probe, Between, Hit;
      ItemsParts(m);
      ItemsParts(m.(right := r'));
      RemovedRight(Items(m.left), m.data, Items(m.right), Items(r'), x, rdata, k);
    }

    lemma RemovedHere(l: seq<Item>, d: Item, r: seq<Item>, x: Item)
      requires cmp(x, d) == 0
      ensures Removed(l + [d] + r, l + r, x, Some(d), |l|)
    {
      assert (l + [d] + r)[|l|] == d;
      assert DeleteAt(l + [d] + r, |l|) == l + r;
    }

    /** The root holds the item and has at most one subtree, which takes its place. */
    lemma ShrunkHere(m: Tree, x: Item)
      requires m.Br? && Avl(m) && cmp(x, m.data) == 0 && (m.left == Leaf || m.right == Leaf)
      ensures Shrunk(m, if m.right == Leaf then m.left else m.right, x, Some(m.data), true, |Items(m.left)|)
    {
      hide Removed;
      RemovedHere(Items(m.left), m.data, Items(m.right), x);
      assert Items(m.left) + [] == Items(m.left) && [] + Items(m.right) == Items(m.right);
    }

    /** The root holds the item and its in-order predecessor `d` takes its place. */
    lemma ShrunkSwap(m: Tree, l': Tree, d: Item, x: Item, rebalancing: bool)
      requires m.Br? && Avl(m) && cmp(x, m.data) == 0 && Avl(l')
      requires Items(m.left) == Items(l') + [d] && Height(m.left) == Height(l') + if rebalancing then 1 else 0
      ensures var m1, k := Br(l', m.node, d, m.balance, m.right), |Items(m.left)|;
              && Removed(Items(m), Items(m1), x, Some(m.data), k)
              && if rebalancing then Stale(m1, -1, 0) && HeightBefore(m1, -1, 0) == Height(m)
                 else Shrunk(m, m1, x, Some(m.data), false, k)
    {
      hide Items, Removed;
      ItemsParts(m);
      ItemsParts(Br(l', m.node, d, m.balance, m.right));
      RemovedHere(Items(m.left), m.data, Items(m.right), x);
    }

    lemma ShrunkNothing(x: Item)
      ensures Shrunk(Leaf, Leaf, x, None, false, 0)
    {
    }

    /** Rebalancing keeps the items, so it completes the step. */
    lemma Shrink(m: Tree, m1: Tree, m': Tree, x: Item, rdata: Option<Item>, rebalancing: bool, k: nat)
      requires Removed(Items(m), Items(m1), x, rdata, k)
      requires Avl(m') && Items(m') == Items(m1) && Height(m') == Height(m) - if rebalancing then 1 else 0
      requires rdata.Some?
      ensures Shrunk(m, m', x, rdata, rebalancing, k)
    {
    }

    static lemma RightmostStep(m: Tree)
      requires m.Br? && Avl(m)
      ensures Avl(m.left) && Avl(m.right)
      ensures m.right == Leaf ==> Items(m) == Items(m.left) + [m.data] && Height(m) == Height(m.left) + 1
    {
    }

    static lemma RightmostDone(m: Tree, r': Tree, d: Item, rebalancing: bool)
      requires m.Br? && Avl(m) && Avl(r')
      requires Items(m.right) == Items(r') + [d] && Height(m.right) == Height(r') + if rebalancing then 1 else 0
      ensures var m1 := m.(right := r');
              && Items(m) == Items(m1) + [d]
              && if rebalancing then Stale(m1, 0, -1) && HeightBefore(m1, 0, -1) == Height(m)
                 else Avl(m1) && Height(m1) == Height(m)
    {
    }

    /** raptor_avltree_delete_internal2: unlink the rightmost node of a subtree after moving its
        item into `q`; the item `q` held is returned. */
    static method DeleteRightmost(r: Node, q: Node, ghost m: Tree, ghost up: Node?)
      returns (r': Node?, rdata: Item, gone: Node, rebalancing: bool, ghost m': Tree)
      requires Linked(m, r, up) && Avl(m) && q !in Nodes(m)
      modifies Nodes(m), q`data
      ensures Linked(m', r', up) && Avl(m') && Nodes(m') == Nodes(m) - {gone} && gone in Nodes(m)
      ensures rdata == old(q.data) && Items(m) == Items(m') + [q.data]
      ensures Height(m) == Height(m') + if rebalancing then 1 else 0
      decreases m
    {
      hide Items, Avl, Height, Stale, HeightBefore, Sorted;
      RightmostStep(m);
      if r.right != null {
        assert allocated(Nodes(m.left)) && allocated(Nodes(m.right));
        ghost var h';
        r.right, rdata, gone, rebalancing, h' := DeleteRightmost(r.right, q, m.right, r);
        r', m' := r, m.(right := h');
        RightmostDone(m, h', q.data, rebalancing);
        assert Linked(m.left, r.left, r);
        if rebalancing {
          r', rebalancing, m' := BalanceRight(r, m', up);
        }
      } else {
        assert allocated(Nodes(m.left));
        rdata := q.data;
        q.data := r.data;
        gone := r;
        r' := r.left;
        if r' != null {
          r'.parent := r.parent;
        }
        rebalancing, m' := true, m.left;
      }
    }

    /** ... with both subtrees present: the in-order predecessor takes the item's place. */
    method DeleteSwap(node: Node, ghost x: Item, ghost m: Tree, ghost up: Node?)
      returns (r: Node, rdata: Item, gone: Node, rebalancing: bool, ghost m': Tree)
      requires Linked(m, node, up) && Avl(m) && cmp(x, m.data) == 0 && m.left.Br?
      modifies Nodes(m)
      ensures Linked(m', r, up) && Shrunk(m, m', x, Some(rdata), rebalancing, |Items(m.left)|)
      ensures Unlinked(m, m', gone) && rdata == m.data
    {
      hide Items, Height, Avl, Shrunk, Stale, Removed;
      RightmostStep(m);
      assert Linked(m.left, node.left, node) && Linked(m.right, node.right, node);
      assert allocated(Nodes(m.right));
      ghost var l';
      node.left, rdata, gone, rebalancing, l' := DeleteRightmost(node.left, node, m.left, node);
      ghost var m1 := Br(l', node, node.data, m.balance, m.right);
      r, m' := node, m1;
      ShrunkSwap(m, l', node.data, x, rebalancing);
      assert Linked(m1, node, up);
      if rebalancing {
        r, rebalancing, m' := BalanceLeft(node, m1, up);
        Shrink(m, m1, m', x, Some(rdata), rebalancing, |Items(m.left)|);
      }
    }

    /** The branch of raptor_avltree_delete_internal that has found the item. */
    method DeleteHere(node: Node, ghost x: Item, ghost m: Tree, ghost up: Node?)
      returns (r: Node?, rdata: Item, gone: Node, rebalancing: bool, ghost m': Tree)
      requires Linked(m, node, up) && Avl(m) && cmp(x, m.data) == 0
      modifies Nodes(m)
      ensures Linked(m', r, up) && Shrunk(m, m', x, Some(rdata), rebalancing, |Items(m.left)|)
      ensures Unlinked(m, m', gone)
    {
      hide Items, Height, Avl, Shrunk, Stale, Removed;
      RightmostStep(m);
      assert Linked(m.left, node.left, node) && Linked(m.right, node.right, node);
      assert allocated(Nodes(m.left)) && allocated(Nodes(m.right));
      rdata := node.data;
      if node.right == null {
        ShrunkHere(m, x);
        r, gone, rebalancing, m' := node.left, node, true, m.left;
        if r != null {
          r.parent := node.parent;
        }
      } else if node.left == null {
        ShrunkHere(m, x);
        r, gone, rebalancing, m' := node.right, node, true, m.right;
        r.parent := node.parent;
      } else {
        r, rdata, gone, rebalancing, m' := DeleteSwap(node, x, m, up);
      }
    }

    /** raptor_avltree_delete_internal. */
    method DeleteInternal(node: Node?, x: Item, ghost m: Tree, ghost up: Node?)
      returns (r: Node?, rdata: Option<Item>, gone: Node?, rebalancing: bool, ghost m': Tree, ghost k: nat)
      requires Linked(m, node, up) && Avl(m) && Probe(cmp, x, Items(m))
      modifies Nodes(m)
      ensures Linked(m', r, up) && Shrunk(m, m', x, rdata, rebalancing, k)
      ensures Unlinked(m, m', gone) && (gone == null <==> rdata == None)
      decreases m, 1
    {
      hide Items, Height, Avl, Probe, Shrunk, Stale, Removed;
      if node == null {
        ShrunkNothing(x);
        return null, None, null, false, Leaf, 0;
      }
      Children(m, x);
      var c := cmp(node.data, x);
      if c > 0 {
        r, rdata, gone, rebalancing, m', k := DeleteLeft(node, x, m, up);
      } else if c < 0 {
        r, rdata, gone, rebalancing, m', k := DeleteRight(node, x, m, up);
      } else {
        var held;
        r, held, gone, rebalancing, m' := DeleteHere(node, x, m, up);
        rdata, k := Some(held), |Items(m.left)|;
      }
    }

    method DeleteLeft(node: Node, x: Item, ghost m: Tree, ghost up: Node?)
      returns (r: Node, rdata: Option<Item>, gone: Node?, rebalancing: bool, ghost m': Tree, ghost k: nat)
      requires Linked(m, node, up) && Avl(m) && Probe(cmp, x, Items(m)) && cmp(x, node.data) < 0
      modifies Nodes(m)
      ensures Linked(m', r, up) && Shrunk(m, m', x, rdata, rebalancing, k)
      ensures Unlinked(m, m', gone) && (gone == null <==> rdata == None)
      decreases m, 0
    {
      hide Items, Height, Avl, Probe, Shrunk, Stale, Removed;
      Children(m, x);
      assert Linked(m.left, node.left, node) && Linked(m.right, node.right, node);
      assert allocated(Nodes(m.right));
      ghost var l';
      node.left, rdata, gone, rebalancing, l', k := DeleteInternal(node.left, x, m.left, node);
      r, m' := node, m.(left := l');
      ShrunkLeft(m, l', x, rdata, rebalancing, k);
      if rebalancing {
        r, rebalancing, m' := BalanceLeft(node, m', up);
        Shrink(m, m.(left := l'), m', x, rdata, rebalancing, k);
      }
    }

    method DeleteRight(node: Node, x: Item, ghost m: Tree, ghost up: Node?)
      returns (r: Node, rdata: Option<Item>, gone: Node?, rebalancing: bool, ghost m': Tree, ghost k: nat)
      requires Linked(m, node, up) && Avl(m) && Probe(cmp, x, Items(m)) && cmp(x, node.data) > 0
      modifies Nodes(m)
      ensures Linked(m', r, up) && Shrunk(m, m', x, rdata, rebalancing, k)
      ensures Unlinked(m, m', gone) && (gone == null <==> rdata == None)
      decreases m, 0
    {
      hide Items, Height, Avl, Probe, Shrunk, Stale, Removed;
      Children(m, x);
      assert Linked(m.left, node.left, node) && Linked(m.right, node.right, node);
      assert allocated(Nodes(m.left));
      ghost var r';
      node.right, rdata, gone, rebalancing, r', k := DeleteInternal(node.right, x, m.right, node);
      r, m' := node, m.(right := r');
      ShrunkRight(m, r', x, rdata, rebalancing, k);
      k := |Items(m.left)| + 1 + k;
      if rebalancing {
        r, rebalancing, m' := BalanceRight(node, m', up);
        Shrink(m, m.(right := r'), m', x, rdata, rebalancing, k);
      }
    }

    /** raptor_avltree_remove. */
    method Remove(x: Item) returns (rdata: Option<Item>, ghost k: nat)
      requires Valid() && Probe(cmp, x, Items(tree))
      modifies this, Nodes(tree)
      ensures Valid() && Nodes(tree) <= old(Nodes(tree))
      ensures Removed(old(Items(tree)), Items(tree), x, rdata, k)
      ensures freed == old(freed)
    {
      hide Items, Avl, Height, Sorted, Probe, Between;
      var gone, rebalancing;
      ghost var was := Items(tree);
      root, rdata, gone, rebalancing, tree, k := DeleteInternal(root, x, tree, null);
      if rdata.Some? {
        size := size - 1;
        DeleteSorted(cmp, was, k);
      }
    }

    /** raptor_avltree_delete. */
    method Delete(x: Item) returns (deleted: bool, ghost k: nat)
      requires Valid() && Probe(cmp, x, Items(tree))
      modifies this, Nodes(tree)
      ensures Valid()
      ensures var s := old(Items(tree));
              if deleted then
                Hit(cmp, s, x, k) && Items(tree) == DeleteAt(s, k)
                && freed == old(freed) + if freeing then [s[k]] else []
              else
                Between(cmp, s, x, k) && Items(tree) == s && freed == old(freed)
    {
      var rdata;
      rdata, k := Remove(x);
      if rdata.Some? {
        if freeing { freed := freed + [rdata.value]; }
      }
      deleted := rdata.Some?;
    }
  }
}
