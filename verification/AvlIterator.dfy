/** The in-order and range iterator of the AVL tree (win32/raptor2/src/raptor_avltree.c). */
module AvlIterator {
  import opened AvlModel
  import opened AvlSearch
  import opened AvlOrder
  import opened AvlTree
  import opened Options

  /** The first `n` items are left of the range `x`. */
  ghost predicate Before(cmp: Compare, x: Item, s: seq<Item>, n: int) {
    n <= |s| && forall i :: 0 <= i < n ==> cmp(x, s[i]) > 0
  }

  /** The items from `n` on are right of the range `x`. */
  ghost predicate After(cmp: Compare, x: Item, s: seq<Item>, n: int) {
    0 <= n && forall i :: n <= i < |s| ==> cmp(x, s[i]) < 0
  }

  /** An item left of the range puts everything before it there; likewise on the right. */
  lemma Outside(cmp: Compare, x: Item, s: seq<Item>, k: nat)
    requires Monotone(cmp, x, s) && k < |s|
    ensures cmp(x, s[k]) > 0 ==> Before(cmp, x, s, k + 1)
    ensures cmp(x, s[k]) < 0 ==> After(cmp, x, s, k)
    ensures cmp(x, s[k]) == 0 ==> forall i :: 0 <= i < k ==> cmp(x, s[i]) >= 0
    ensures cmp(x, s[k]) == 0 ==> forall i :: k <= i < |s| ==> cmp(x, s[i]) <= 0
  {
  }

  /** What the links of a node say about its place in the order. */
  lemma Place(t: Tree, top: Node?, x: Node)
    requires Linked(t, top, null) && x in Nodes(t)
    ensures |InOrder(t)| == |Items(t)| && 0 <= First(t, x) <= Index(t, x) < End(t, x) <= |Items(t)|
    ensures Items(t)[Index(t, x)] == x.data && InOrder(t)[Index(t, x)] == x
    ensures if x.left == null then First(t, x) == Index(t, x)
            else x.left in Nodes(t) && Sub(t, x.left) < Sub(t, x) && First(t, x.left) == First(t, x) && End(t, x.left) == Index(t, x)
    ensures if x.right == null then End(t, x) == Index(t, x) + 1
            else x.right in Nodes(t) && Sub(t, x.right) < Sub(t, x) && First(t, x.right) == Index(t, x) + 1 && End(t, x.right) == End(t, x)
  {
    InOrderItems(t, top, null);
    IndexOf(t, x);
    ChildrenOf(t, top, null, x);
  }

  /** raptor_avltree_node_leftmost: follow left children, within the range if there is one. */
  method Leftmost(cmp: Compare, from: Node, range: Option<Item>, ghost t: Tree, ghost top: Node?) returns (r: Node)
    requires Linked(t, top, null) && from in Nodes(t)
    ensures Linked(t, top, null)
    ensures r in Nodes(t) && First(t, r) == First(t, from)
    ensures r.left == null || !Matches(cmp, range, r.left.data)
    ensures r == from || Matches(cmp, range, r.data)
    ensures Sub(t, r) == Sub(t, from) || Sub(t, r) < Sub(t, from)
  {
    r := from;
    while r.left != null && (range.None? || cmp(range.value, r.left.data) == 0)
      invariant Linked(t, top, null)
      invariant r in Nodes(t) && First(t, r) == First(t, from)
      invariant r == from || Matches(cmp, range, r.data)
      invariant Sub(t, r) == Sub(t, from) || Sub(t, r) < Sub(t, from)
      decreases Sub(t, r)
    {
      Place(t, top, r);
      r := r.left;
    }
  }

  /** raptor_avltree_node_search_right: follow right children until a match.  `from` is left of the
      range and below the match at `hit`; when nothing matches, so is everything below `from`. */
  method SearchRight(cmp: Compare, from: Node?, range: Option<Item>, ghost t: Tree, ghost top: Node?, ghost hit: nat) returns (r: Node?)
    requires Linked(t, top, null)
    requires from != null ==> from in Nodes(t) && range.Some? && Monotone(cmp, range.value, Items(t)) && cmp(range.value, from.data) > 0
    requires from != null ==> End(t, from) <= hit < |Items(t)| && cmp(range.value, Items(t)[hit]) == 0
    ensures Linked(t, top, null)
    ensures from == null <==> r == null
    ensures r != null ==> r in Nodes(t)
    ensures r != null && Matches(cmp, range, r.data) ==> Sub(t, r) < Sub(t, from) && Before(cmp, range.value, Items(t), First(t, r))
    ensures r != null && !Matches(cmp, range, r.data) ==> Before(cmp, range.value, Items(t), End(t, from))
  {
    hide Before;
    if from == null {
      return null;
    }
    Place(t, top, from);
    Outside(cmp, range.value, Items(t), Index(t, from));
    var result := from.right;
    ghost var edge := Index(t, from) + 1;
    while result != null
      invariant Linked(t, top, null)
      invariant result != null ==> result in Nodes(t) && First(t, result) == edge && End(t, result) == End(t, from) && Sub(t, result) < Sub(t, from)
      invariant result == null ==> edge == End(t, from)
      invariant Before(cmp, range.value, Items(t), edge)
      decreases result != null, if result == null then Leaf else Sub(t, result)
    {
      Place(t, top, result);
      if cmp(range.value, result.data) == 0 {
        return result;
      }
      Outside(cmp, range.value, Items(t), hit);
      Outside(cmp, range.value, Items(t), Index(t, result));
      edge := Index(t, result) + 1;
      result := result.right;
    }
    return from;
  }

  /** The item next to index `i`, if it is in range: what one step of the iterator must reach. */
  ghost predicate Reaches(cmp: Compare, range: Option<Item>, t: Tree, j: int, node: Node?) {
    if 0 <= j < |Items(t)| && Matches(cmp, range, Items(t)[j]) then node != null && node in Nodes(t) && Index(t, node) == j
    else node == null
  }

  /** The walk up in raptor_avltree_node_next: the nearest ancestor reached from its left. */
  method ClimbNext(from: Node, ghost t: Tree, ghost top: Node?) returns (node: Node?)
    requires Linked(t, top, null) && from in Nodes(t)
    ensures Linked(t, top, null)
    ensures node == null ==> End(t, from) == |Items(t)|
    ensures node != null ==> node in Nodes(t) && Index(t, node) == End(t, from)
  {
    var last := from;
    node := from.parent;
    InOrderItems(t, top, null);
    while true
      invariant Linked(t, top, null)
      invariant last in Nodes(t) && node == last.parent && End(t, last) == End(t, from)
      decreases |InOrder(t)| - |InOrder(Sub(t, last))|
    {
      ParentOf(t, top, null, last);
      IndexOf(t, last);
      if node == null {
        return;
      }
      IndexOf(t, node);
      if node.left != null && last == node.left {
        return;
      }
      // an unvisited right subtree: a node reached from below has only been left through its
      // right link here
      if node.right != null && last != node.right {
        assert false;
      }
      last := node;
      node := node.parent;
    }
  }

  /** raptor_avltree_node_next. */
  method NodeNext(cmp: Compare, from: Node, range: Option<Item>, ghost t: Tree, ghost top: Node?) returns (node: Node?)
    requires Linked(t, top, null) && from in Nodes(t) && Matches(cmp, range, from.data)
    requires range.Some? ==> Monotone(cmp, range.value, Items(t))
    ensures Linked(t, top, null)
    ensures Reaches(cmp, range, t, Index(t, from) + 1, node)
  {
    hide Items, InOrder, Sub, First, Index, End, Nodes, Linked, Monotone;
    Place(t, top, from);
    if range.Some? {
      Outside(cmp, range.value, Items(t), Index(t, from));
    }
    var up := true;
    node := from;
    if from.right != null {
      var next := Leftmost(cmp, from.right, None, t, top);
      Place(t, top, next);
      if range.None? || cmp(range.value, next.data) == 0 {
        up := false;
        node := next;
      } else {
        Outside(cmp, range.value, Items(t), Index(t, next));
      }
    }
    if up {
      node := ClimbNext(node, t, top);
    }
    if node != null {
      Place(t, top, node);
      if range.Some? && cmp(range.value, node.data) != 0 {
        node := null;
      }
    }
  }

  /** raptor_avltree_node_rightmost: follow right children, within the range if there is one. */
  method Rightmost(cmp: Compare, from: Node, range: Option<Item>, ghost t: Tree, ghost top: Node?) returns (r: Node)
    requires Linked(t, top, null) && from in Nodes(t)
    ensures Linked(t, top, null)
    ensures r in Nodes(t) && End(t, r) == End(t, from)
    ensures r.right == null || !Matches(cmp, range, r.right.data)
    ensures r == from || Matches(cmp, range, r.data)
    ensures Sub(t, r) == Sub(t, from) || Sub(t, r) < Sub(t, from)
  {
    r := from;
    while r.right != null && (range.None? || cmp(range.value, r.right.data) == 0)
      invariant Linked(t, top, null)
      invariant r in Nodes(t) && End(t, r) == End(t, from)
      invariant r == from || Matches(cmp, range, r.data)
      invariant Sub(t, r) == Sub(t, from) || Sub(t, r) < Sub(t, from)
      decreases Sub(t, r)
    {
      Place(t, top, r);
      r := r.right;
    }
  }

  /** raptor_avltree_node_search_left: follow left children until a match.  `from` is right of the
      range and below the match at `hit`; when nothing matches, so is everything below `from`. */
  method SearchLeft(cmp: Compare, from: Node?, range: Option<Item>, ghost t: Tree, ghost top: Node?, ghost hit: nat) returns (r: Node?)
    requires Linked(t, top, null)
    requires from != null ==> from in Nodes(t) && range.Some? && Monotone(cmp, range.value, Items(t)) && cmp(range.value, from.data) < 0
    requires from != null ==> hit < First(t, from) && hit < |Items(t)| && cmp(range.value, Items(t)[hit]) == 0
    ensures Linked(t, top, null)
    ensures from == null <==> r == null
    ensures r != null ==> r in Nodes(t)
    ensures r != null && Matches(cmp, range, r.data) ==> Sub(t, r) < Sub(t, from) && After(cmp, range.value, Items(t), End(t, r))
    ensures r != null && !Matches(cmp, range, r.data) ==> After(cmp, range.value, Items(t), First(t, from))
  {
    hide After;
    if from == null {
      return null;
    }
    Place(t, top, from);
    Outside(cmp, range.value, Items(t), Index(t, from));
    var result := from.left;
    ghost var edge := Index(t, from);
    while result != null
      invariant Linked(t, top, null)
      invariant result != null ==> result in Nodes(t) && End(t, result) == edge && First(t, result) == First(t, from) && Sub(t, result) < Sub(t, from)
      invariant result == null ==> edge == First(t, from)
      invariant After(cmp, range.value, Items(t), edge)
      decreases result != null, if result == null then Leaf else Sub(t, result)
    {
      Place(t, top, result);
      if cmp(range.value, result.data) == 0 {
        return result;
      }
      Outside(cmp, range.value, Items(t), hit);
      Outside(cmp, range.value, Items(t), Index(t, result));
      edge := Index(t, result);
      result := result.left;
    }
    return from;
  }

  /** The walk up in raptor_avltree_node_prev: the nearest ancestor reached from its right. */
  method ClimbPrev(from: Node, ghost t: Tree, ghost top: Node?) returns (node: Node?)
    requires Linked(t, top, null) && from in Nodes(t)
    ensures Linked(t, top, null)
    ensures node == null ==> First(t, from) == 0
    ensures node != null ==> node in Nodes(t) && Index(t, node) == First(t, from) - 1
  {
    var last := from;
    node := from.parent;
    InOrderItems(t, top, null);
    while true
      invariant Linked(t, top, null)
      invariant last in Nodes(t) && node == last.parent && First(t, last) == First(t, from)
      decreases |InOrder(t)| - |InOrder(Sub(t, last))|
    {
      ParentOf(t, top, null, last);
      IndexOf(t, last);
      if node == null {
        return;
      }
      IndexOf(t, node);
      if node.right != null && last == node.right {
        return;
      }
      // an unvisited left subtree cannot occur, as in ClimbNext
      if node.left != null && last != node.left {
        assert false;
      }
      last := node;
      node := node.parent;
    }
  }

  /** raptor_avltree_node_prev. */
  method NodePrev(cmp: Compare, from: Node, range: Option<Item>, ghost t: Tree, ghost top: Node?) returns (node: Node?)
    requires Linked(t, top, null) && from in Nodes(t) && Matches(cmp, range, from.data)
    requires range.Some? ==> Monotone(cmp, range.value, Items(t))
    ensures Linked(t, top, null)
    ensures Reaches(cmp, range, t, Index(t, from) - 1, node)
  {
    hide Items, InOrder, Sub, First, Index, End, Nodes, Linked, Monotone;
    Place(t, top, from);
    if range.Some? {
      Outside(cmp, range.value, Items(t), Index(t, from));
    }
    var up := true;
    node := from;
    if from.left != null {
      var prev := Rightmost(cmp, from.left, None, t, top);
      Place(t, top, prev);
      if range.None? || cmp(range.value, prev.data) == 0 {
        up := false;
        node := prev;
      } else {
        Outside(cmp, range.value, Items(t), Index(t, prev));
      }
    }
    if up {
      node := ClimbPrev(node, t, top);
    }
    if node != null {
      Place(t, top, node);
      if range.Some? && cmp(range.value, node.data) != 0 {
        node := null;
      }
    }
  }

  /** Where a walk begins: the first match going forwards, the last one going backwards. */
  ghost predicate Starts(cmp: Compare, range: Option<Item>, t: Tree, direction: int, node: Node?) {
    if node == null then forall i :: 0 <= i < |Items(t)| ==> !Matches(cmp, range, Items(t)[i])
    else
      && node in Nodes(t) && 0 <= Index(t, node) < |Items(t)| && Matches(cmp, range, Items(t)[Index(t, node)])
      && if direction < 0 then forall i :: Index(t, node) < i < |Items(t)| ==> !Matches(cmp, range, Items(t)[i])
         else forall i :: 0 <= i < Index(t, node) ==> !Matches(cmp, range, Items(t)[i])
  }

  /** The descent to the start of the range in raptor_new_avltree_iterator. */
  method Descend(cmp: Compare, root: Node, range: Option<Item>, ghost t: Tree, ghost top: Node?) returns (current: Node)
    requires Linked(t, top, null) && root in Nodes(t) && Matches(cmp, range, root.data)
    requires if range.None? then First(t, root) == 0
             else Monotone(cmp, range.value, Items(t)) && Before(cmp, range.value, Items(t), First(t, root))
    ensures Linked(t, top, null) && Starts(cmp, range, t, 1, current)
  {
    current := root;
    while true
      invariant Linked(t, top, null)
      invariant current in Nodes(t) && Matches(cmp, range, current.data)
      invariant if range.None? then First(t, current) == 0 else Before(cmp, range.value, Items(t), First(t, current))
      decreases Sub(t, current)
    {
      current := Leftmost(cmp, current, range, t, top);
      Place(t, top, current);
      if current.left != null {
        Place(t, top, current.left);
        Outside(cmp, range.value, Items(t), Index(t, current));
      }
      var pred := SearchRight(cmp, current.left, range, t, top, Index(t, current));
      if pred != null && cmp(range.value, pred.data) == 0 {
        current := pred;
      } else {
        return;
      }
    }
  }

  /** ... and to its end. */
  method DescendBack(cmp: Compare, root: Node, range: Option<Item>, ghost t: Tree, ghost top: Node?) returns (current: Node)
    requires Linked(t, top, null) && root in Nodes(t) && Matches(cmp, range, root.data)
    requires if range.None? then End(t, root) == |Items(t)|
             else Monotone(cmp, range.value, Items(t)) && After(cmp, range.value, Items(t), End(t, root))
    ensures Linked(t, top, null) && Starts(cmp, range, t, -1, current)
  {
    current := root;
    while true
      invariant Linked(t, top, null)
      invariant current in Nodes(t) && Matches(cmp, range, current.data)
      invariant if range.None? then End(t, current) == |Items(t)| else After(cmp, range.value, Items(t), End(t, current))
      decreases Sub(t, current)
    {
      current := Rightmost(cmp, current, range, t, top);
      Place(t, top, current);
      if current.right != null {
        Place(t, top, current.right);
        Outside(cmp, range.value, Items(t), Index(t, current));
      }
      var pred := SearchLeft(cmp, current.right, range, t, top, Index(t, current));
      if pred != null && cmp(range.value, pred.data) == 0 {
        current := pred;
      } else {
        return;
      }
    }
  }

  ghost predicate Walkable(tree: AvlTree, range: Option<Item>)
    reads tree, Nodes(tree.tree)
  {
    tree.Valid() && (range.Some? ==> Monotone(tree.cmp, range.value, Items(tree.tree)))
  }

  /** The node a walk is rooted at: the topmost match, or the tree root without a range. */
  function Top(cmp: Compare, range: Option<Item>, ghost t: Tree, top: Node?): Node?
    requires Linked(t, top, null)
    reads Nodes(t)
  {
    if range.Some? then Search(cmp, top, range.value, t, null) else top
  }

  /** Every match lies below that node, and no node above it is in range. */
  lemma TopFacts(cmp: Compare, range: Option<Item>, t: Tree, top: Node?)
    requires Linked(t, top, null) && (range.Some? ==> Monotone(cmp, range.value, Items(t)))
    ensures var r := Top(cmp, range, t, top);
            if r == null then Starts(cmp, range, t, 1, null)
            else
              && r in Nodes(t) && Matches(cmp, range, r.data) && RootedAbove(cmp, range, t, r)
              && if range.None? then First(t, r) == 0 && End(t, r) == |Items(t)|
                 else Before(cmp, range.value, Items(t), First(t, r)) && After(cmp, range.value, Items(t), End(t, r))
  {
    var r := Top(cmp, range, t, top);
    InOrderItems(t, top, null);
    if range.Some? {
      SearchComplete(cmp, top, range.value, t, null);
      TopMatch(cmp, top, range.value, t, null);
    }
    if r != null {
      Place(t, top, r);
      ParentOf(t, top, null, r);
      if range.Some? {
        Outside(cmp, range.value, Items(t), Index(t, r));
      }
    }
  }

  /** Find where a walk is rooted and where it starts. */
  method Begin(tree: AvlTree, range: Option<Item>, direction: int) returns (root: Node?, current: Node?)
    requires Walkable(tree, range)
    ensures Walkable(tree, range)
    ensures root != null ==> root in Nodes(tree.tree) && RootedAbove(tree.cmp, range, tree.tree, root)
    ensures current != null ==> root != null && current in Nodes(tree.tree) && Matches(tree.cmp, range, current.data)
    ensures Starts(tree.cmp, range, tree.tree, direction, current)
  {
    hide Avl, Sorted, Height, Top, Sub, InOrder, First, End, Before, After, RootedAbove;
    ghost var t := tree.tree;
    root := Top(tree.cmp, range, t, tree.root);
    TopFacts(tree.cmp, range, t, tree.root);
    current := root;
    if current != null {
      assert allocated(Nodes(t));
      if direction < 0 {
        current := DescendBack(tree.cmp, current, range, t, tree.root);
      } else {
        current := Descend(tree.cmp, current, range, t, tree.root);
      }
      Place(t, tree.root, current);
    }
  }

  class Iterator {
    const tree: AvlTree
    const range: Option<Item>
    const direction: int
    /** The topmost match, or the tree root without a range. */
    var root: Node?
    var current: Node?
    var finished: bool

    ghost predicate Valid()
      reads this, tree, Nodes(tree.tree)
    {
      && Walkable(tree, range)
      && (current != null ==> root != null && current in Nodes(tree.tree) && Matches(tree.cmp, range, current.data))
      && (root != null ==> root in Nodes(tree.tree) && RootedAbove(tree.cmp, range, tree.tree, root))
      && (finished ==> current == null)
    }

    /** raptor_new_avltree_iterator. */
    constructor (tree: AvlTree, range: Option<Item>, direction: int)
      requires Walkable(tree, range)
      ensures Valid() && !finished
      ensures this.tree == tree && this.range == range && this.direction == direction
      ensures Starts(tree.cmp, range, tree.tree, direction, current)
    {
      this.tree, this.range, this.direction := tree, range, direction;
      finished := false;
      var top, first := Begin(tree, range, direction);
      root, current := top, first;
    }

    /** raptor_avltree_iterator_next. */
    method Next() returns (end: bool)
      requires Valid()
      modifies this
      ensures Valid() && root == old(root)
      ensures old(current) == null || old(finished) ==> end && current == old(current) && finished == old(finished)
      ensures old(current) != null && !old(finished) ==>
                && Reaches(tree.cmp, range, tree.tree, Index(tree.tree, old(current)) + StepOf(direction), current)
                && (end <==> current == null) && finished == end
    {
      hide Avl, Sorted, Height, Nodes, Linked, Items, Index, Monotone, InOrder, Sub, First, Matches;
      if current == null || finished {
        return true;
      }
      assert allocated(Nodes(tree.tree));
      ghost var t := tree.tree;
      ghost var j := Index(t, current) + StepOf(direction);
      var node;
      if direction < 0 {
        node := NodePrev(tree.cmp, current, range, t, tree.root);
      } else {
        node := NodeNext(tree.cmp, current, range, t, tree.root);
      }
      if node != null {
        Place(t, tree.root, node);
      }
      // stay within the rooted subtree
      if root.parent == node {
        node := null;
      }
      current := node;
      finished := current == null;
      end := finished;
    }

    /** raptor_avltree_iterator_get. */
    method Get() returns (d: Option<Item>)
      requires Valid()
      modifies `finished
      ensures Valid()
      ensures d == if current == null then None else Some(current.data)
      ensures finished == (old(finished) || current == null)
    {
      if finished {
        return None;
      }
      finished := current == null;
      if finished {
        return None;
      }
      d := Some(current.data);
    }
  }

  /** No node above the starting point of a walk is in range. */
  ghost predicate RootedAbove(cmp: Compare, range: Option<Item>, t: Tree, root: Node)
    reads Nodes(t), root
  {
    root.parent == null || (root.parent in Nodes(t) && !Matches(cmp, range, root.parent.data))
  }

  /** The matches are the items from `lo` up to `hi`. */
  ghost predicate Range(cmp: Compare, range: Option<Item>, s: seq<Item>, lo: int, hi: int) {
    && 0 <= lo <= hi <= |s|
    && forall i :: 0 <= i < |s| ==> (lo <= i < hi <==> Matches(cmp, range, s[i]))
  }

  /** The items of `s` in range. */
  ghost function Matching(cmp: Compare, range: Option<Item>, s: seq<Item>): seq<Item> {
    if s == [] then []
    else
      var x := s[|s| - 1];
      Matching(cmp, range, s[..|s| - 1]) + if Matches(cmp, range, x) then [x] else []
  }

  /** The items that match are those that the handler takes as equal to the range, or all without one. */
  lemma {:induction false} MatchingHolds(cmp: Compare, range: Option<Item>, s: seq<Item>, x: Item)
    ensures x in Matching(cmp, range, s) <==> x in s && (range == None || cmp(range.value, x) == 0)
    decreases |s|
  {
    if s != [] {
      MatchingHolds(cmp, range, s[..|s| - 1], x);
      assert s == s[..|s| - 1] + [s[|s| - 1]];
    }
  }

  lemma {:induction false} MatchingIsRange(cmp: Compare, range: Option<Item>, s: seq<Item>, lo: int, hi: int)
    requires Range(cmp, range, s, lo, hi)
    ensures 0 <= lo <= hi <= |s| && Matching(cmp, range, s) == s[lo..hi]
    decreases |s|
  {
    if s != [] {
      var t := s[..|s| - 1];
      var h := if hi == |s| && lo < hi then hi - 1 else hi;
      if lo == |s| {
        MatchingIsRange(cmp, range, t, |t|, |t|);
      } else {
        MatchingIsRange(cmp, range, t, lo, h);
        assert s[lo..hi] == t[lo..h] + if hi == |s| then [s[|s| - 1]] else [];
      }
    }
  }

  ghost function Reverse(s: seq<Item>): seq<Item> {
    if s == [] then [] else Reverse(s[1..]) + [s[0]]
  }

  lemma {:induction false} ReverseAt(s: seq<Item>, i: nat)
    requires i < |s|
    ensures |Reverse(s)| == |s| && Reverse(s)[i] == s[|s| - 1 - i]
  {
    if |s| > 1 {
      ReverseAt(s[1..], if i < |s| - 1 then i else 0);
    }
  }

  lemma ReverseAll(s: seq<Item>)
    ensures |Reverse(s)| == |s| && forall i :: 0 <= i < |s| ==> Reverse(s)[i] == s[|s| - 1 - i]
  {
    forall i | 0 <= i < |s| ensures |Reverse(s)| == |s| && Reverse(s)[i] == s[|s| - 1 - i] {
      ReverseAt(s, i);
    }
  }

  ghost function StepOf(direction: int): int {
    if direction < 0 then -1 else 1
  }

  ghost function LoOf(direction: int, n: nat, at: int): int {
    if direction < 0 then at + 1 else at - n
  }

  /** `items` are the matches met before index `at`, from the end of the order where the walk began. */
  ghost predicate Walked(cmp: Compare, range: Option<Item>, s: seq<Item>, direction: int, items: seq<Item>, at: int) {
    var lo := LoOf(direction, |items|, at);
    var hi := lo + |items|;
    && 0 <= lo <= hi <= |s|
    && items == (if direction < 0 then Reverse(s[lo..hi]) else s[lo..hi])
    && (forall i :: lo <= i < hi ==> Matches(cmp, range, s[i]))
    && (if direction < 0 then forall i :: hi <= i < |s| ==> !Matches(cmp, range, s[i])
        else forall i :: 0 <= i < lo ==> !Matches(cmp, range, s[i]))
  }

  ghost function StartAt(t: Tree, direction: int, current: Node?): int
    requires current != null ==> current in Nodes(t)
  {
    if current != null then Index(t, current) else if direction < 0 then |Items(t)| - 1 else 0
  }

  lemma WalkBegins(cmp: Compare, range: Option<Item>, t: Tree, direction: int, current: Node?)
    requires Starts(cmp, range, t, direction, current)
    ensures Walked(cmp, range, Items(t), direction, [], StartAt(t, direction, current))
    ensures current == null ==> forall i :: 0 <= i < |Items(t)| ==> !Matches(cmp, range, Items(t)[i])
  {
    hide Matches, Matching, Items, Nodes, Linked, Avl, Height, InOrder, Sub, First, Index;
    if current != null {
      NoneYet(cmp, range, Items(t), direction, Index(t, current));
    } else {
      NoneYet(cmp, range, Items(t), direction, if direction < 0 then |Items(t)| - 1 else 0);
    }
  }

  lemma NoneYet(cmp: Compare, range: Option<Item>, s: seq<Item>, direction: int, at: int)
    requires if direction < 0 then -1 <= at < |s| && forall i :: at < i < |s| ==> !Matches(cmp, range, s[i])
             else 0 <= at <= |s| && forall i :: 0 <= i < at ==> !Matches(cmp, range, s[i])
    ensures Walked(cmp, range, s, direction, [], at)
  {
    hide Matches, Matching;
    var lo := LoOf(direction, 0, at);
    assert s[lo..lo] == [];
  }

  lemma WalkOn(cmp: Compare, range: Option<Item>, s: seq<Item>, direction: int, items: seq<Item>, at: int)
    requires Walked(cmp, range, s, direction, items, at) && 0 <= at < |s| && Matches(cmp, range, s[at])
    ensures Walked(cmp, range, s, direction, items + [s[at]], at + StepOf(direction)) && |items| < |s|
  {
    hide Matches, Reverse;
    var lo := LoOf(direction, |items|, at);
    var hi := lo + |items|;
    if direction < 0 {
      ReverseExtend(s, at, hi);
    } else {
      assert s[lo..at + 1] == s[lo..hi] + [s[at]];
    }
  }

  lemma ReverseExtend(s: seq<Item>, at: nat, hi: nat)
    requires at < hi <= |s|
    ensures Reverse(s[at..hi]) == Reverse(s[at + 1..hi]) + [s[at]]
  {
    assert s[at..hi][1..] == s[at + 1..hi];
  }

  /** A walk stops at the first item out of range, and no match lies beyond it. */
  lemma WalkEnds(cmp: Compare, range: Option<Item>, s: seq<Item>, direction: int, items: seq<Item>, at: int)
    requires range.Some? ==> Monotone(cmp, range.value, s)
    requires Walked(cmp, range, s, direction, items, at)
    requires 0 <= at < |s| ==> !Matches(cmp, range, s[at])
    requires items == [] ==> forall i :: 0 <= i < |s| ==> !Matches(cmp, range, s[i])
    ensures var lo := LoOf(direction, |items|, at);
            var hi := lo + |items|;
            Range(cmp, range, s, lo, hi) && 0 <= lo <= hi <= |s| && items == if direction < 0 then Reverse(s[lo..hi]) else s[lo..hi]
  {
    if items != [] && range.Some? && 0 <= at < |s| {
      Outside(cmp, range.value, s, at - StepOf(direction));
      Outside(cmp, range.value, s, at);
    }
  }

  /** Run an iterator to its end, as raptor_avltree_print does: it visits exactly the matching
      items, once each, in the order of the direction. */
  method Collect(tree: AvlTree, range: Option<Item>, direction: int) returns (items: seq<Item>)
    requires Walkable(tree, range)
    ensures tree.Valid()
    ensures var all := Matching(tree.cmp, range, Items(tree.tree));
            && items == (if direction < 0 then Reverse(all) else all)
            && (direction < 0 ==> |items| == |all| && forall i :: 0 <= i < |items| ==> items[i] == all[|all| - 1 - i])
  {
    hide Linked, Avl, Sorted, Height, Nodes, Items, Index, First, Sub, InOrder;
    hide Walked, Starts, Range, Matches, Matching, Reverse, LoOf, Monotone;
    ghost var t, s := tree.tree, Items(tree.tree);
    items := [];
    var it := new Iterator(tree, range, direction);
    ghost var at := StartAt(t, direction, it.current);
    WalkBegins(tree.cmp, range, t, direction, it.current);
    var end := false;
    while !end
      invariant it.Valid() && it.tree == tree && it.range == range && it.direction == direction && fresh(it)
      invariant tree.tree == t && Items(tree.tree) == s
      invariant Walked(tree.cmp, range, s, direction, items, at) && |items| <= |s|
      invariant if it.current != null then !it.finished && Index(t, it.current) == at
                else 0 <= at < |s| ==> !Matches(tree.cmp, range, s[at])
      invariant items == [] && it.current == null ==> forall i :: 0 <= i < |s| ==> !Matches(tree.cmp, range, s[i])
      invariant end ==> it.current == null
      decreases !end, |s| - |items|
    {
      var d := it.Get();
      if d.Some? {
        Place(t, tree.root, it.current);
        WalkOn(tree.cmp, range, s, direction, items, at);
        items := items + [d.value];
        at := at + StepOf(direction);
      }
      end := it.Next();
    }
    Collected(tree.cmp, range, s, direction, items, at);
  }

  lemma Collected(cmp: Compare, range: Option<Item>, s: seq<Item>, direction: int, items: seq<Item>, at: int)
    requires range.Some? ==> Monotone(cmp, range.value, s)
    requires Walked(cmp, range, s, direction, items, at)
    requires 0 <= at < |s| ==> !Matches(cmp, range, s[at])
    requires items == [] ==> forall i :: 0 <= i < |s| ==> !Matches(cmp, range, s[i])
    ensures var all := Matching(cmp, range, s);
            && items == (if direction < 0 then Reverse(all) else all)
            && (direction < 0 ==> |items| == |all| && forall i :: 0 <= i < |items| ==> items[i] == all[|all| - 1 - i])
  {
    hide Walked, Range, Matches, Matching, Reverse, Monotone, LoOf;
    WalkEnds(cmp, range, s, direction, items, at);
    var lo := LoOf(direction, |items|, at);
    MatchingIsRange(cmp, range, s, lo, lo + |items|);
    if direction < 0 {
      ReverseAll(Matching(cmp, range, s));
    }
  }
}
