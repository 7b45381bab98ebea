/** Rotations and rebalancing on the heap AVL tree (win32/raptor2/src/raptor_avltree.c).
    The C code passes the address of the slot holding a subtree; here the callee returns the
    new subtree root and the caller stores it in that slot. */
module AvlBalance {
  import opened AvlModel

  // ---------- rotations: pointer steps ----------

  /** Single rotation to the right: the left child of `n` becomes the subtree root. */
  method TurnRight(n: Node, nb: int, pb: int) returns (p1: Node)
    requires n.left != null && n.left != n && n.left.right != n && n.left.right != n.left
    modifies n, n.left, n.left.right
    ensures p1 == old(n.left)
    ensures n.left == old(n.left.right) && n.right == old(n.right) && n.parent == p1 && n.data == old(n.data) && n.balance == nb
    ensures p1.left == old(n.left.left) && p1.right == n && p1.parent == old(n.parent) && p1.data == old(n.left.data) && p1.balance == pb
    ensures n.left != null ==> n.left.parent == n && unchanged(n.left`left, n.left`right, n.left`data, n.left`balance)
  {
    var parent := n.parent;
    p1 := n.left;
    n.left := p1.right;
    if n.left != null { n.left.parent := n; }
    p1.right := n;
    n.parent := p1;
    n.balance := nb;
    p1.balance := pb;
    p1.parent := parent;
  }

  /** Single rotation to the left: the right child of `n` becomes the subtree root. */
  method TurnLeft(n: Node, nb: int, pb: int) returns (p1: Node)
    requires n.right != null && n.right != n && n.right.left != n && n.right.left != n.right
    modifies n, n.right, n.right.left
    ensures p1 == old(n.right)
    ensures n.right == old(n.right.left) && n.left == old(n.left) && n.parent == p1 && n.data == old(n.data) && n.balance == nb
    ensures p1.right == old(n.right.right) && p1.left == n && p1.parent == old(n.parent) && p1.data == old(n.right.data) && p1.balance == pb
    ensures n.right != null ==> n.right.parent == n && unchanged(n.right`left, n.right`right, n.right`data, n.right`balance)
  {
    var parent := n.parent;
    p1 := n.right;
    n.right := p1.left;
    if n.right != null { n.right.parent := n; }
    p1.left := n;
    n.parent := p1;
    n.balance := nb;
    p1.balance := pb;
    p1.parent := parent;
  }

  // ---------- rotations: the tree they build ----------

  ghost function RotatedRight(m: Tree, nb: int, pb: int): Tree
    requires m.Br? && m.left.Br?
  {
    var l := m.left;
    Br(l.left, l.node, l.data, pb, Br(l.right, m.node, m.data, nb, m.right))
  }

  ghost function RotatedLeft(m: Tree, nb: int, pb: int): Tree
    requires m.Br? && m.right.Br?
  {
    var r := m.right;
    Br(Br(m.left, m.node, m.data, nb, r.left), r.node, r.data, pb, r.right)
  }

  ghost function RotatedLeftRight(m: Tree): Tree
    requires m.Br? && m.left.Br? && m.left.right.Br?
  {
    var b2 := m.left.right.balance;
    RotatedRight(m.(left := RotatedLeft(m.left, if b2 == 1 then -1 else 0, 0)), if b2 == -1 then 1 else 0, 0)
  }

  ghost function RotatedRightLeft(m: Tree): Tree
    requires m.Br? && m.right.Br? && m.right.left.Br?
  {
    var b2 := m.right.left.balance;
    RotatedLeft(m.(right := RotatedRight(m.right, if b2 == -1 then 1 else 0, 0)), if b2 == 1 then -1 else 0, 0)
  }

  lemma RotatedRightItems(m: Tree, nb: int, pb: int)
    requires m.Br? && m.left.Br?
    ensures Items(RotatedRight(m, nb, pb)) == Items(m)
  {
    var l := m.left;
    var lo := Br(l.right, m.node, m.data, nb, m.right);
    assert Items(lo) == Items(l.right) + [m.data] + Items(m.right);
  }

  lemma RotatedLeftItems(m: Tree, nb: int, pb: int)
    requires m.Br? && m.right.Br?
    ensures Items(RotatedLeft(m, nb, pb)) == Items(m)
  {
    var r := m.right;
    var lo := Br(m.left, m.node, m.data, nb, r.left);
    assert Items(lo) == Items(m.left) + [m.data] + Items(r.left);
  }

  lemma RotatedLeftRightItems(m: Tree)
    requires m.Br? && m.left.Br? && m.left.right.Br?
    ensures Items(RotatedLeftRight(m)) == Items(m)
  {
    var b2 := m.left.right.balance;
    RotatedLeftItems(m.left, if b2 == 1 then -1 else 0, 0);
    RotatedRightItems(m.(left := RotatedLeft(m.left, if b2 == 1 then -1 else 0, 0)), if b2 == -1 then 1 else 0, 0);
  }

  lemma RotatedRightLeftItems(m: Tree)
    requires m.Br? && m.right.Br? && m.right.left.Br?
    ensures Items(RotatedRightLeft(m)) == Items(m)
  {
    var b2 := m.right.left.balance;
    RotatedRightItems(m.right, if b2 == -1 then 1 else 0, 0);
    RotatedLeftItems(m.(right := RotatedRight(m.right, if b2 == -1 then 1 else 0, 0)), if b2 == 1 then -1 else 0, 0);
  }

  method RotateRight(n: Node, nb: int, pb: int, ghost m: Tree, ghost up: Node?) returns (p1: Node, ghost m': Tree)
    requires Linked(m, n, up) && m.Br? && m.left.Br?
    modifies Nodes(m)
    ensures m' == RotatedRight(m, nb, pb)
    ensures Linked(m', p1, up) && Nodes(m') == Nodes(m)
  {
    ghost var a, b, c := m.left.left, m.left.right, m.right;
    assert Linked(m.left, n.left, n);
    assert Linked(a, n.left.left, n.left) && Linked(b, n.left.right, n.left) && Linked(c, n.right, n);
    assert allocated(Nodes(a)) && allocated(Nodes(b)) && allocated(Nodes(c));
    p1 := TurnRight(n, nb, pb);
    assert Linked(a, p1.left, p1) && Linked(b, n.left, n) && Linked(c, n.right, n);
    ghost var lo := Br(b, n, m.data, nb, c);
    assert Linked(lo, n, p1);
    m' := Br(a, p1, m.left.data, pb, lo);
  }

  method RotateLeft(n: Node, nb: int, pb: int, ghost m: Tree, ghost up: Node?) returns (p1: Node, ghost m': Tree)
    requires Linked(m, n, up) && m.Br? && m.right.Br?
    modifies Nodes(m)
    ensures m' == RotatedLeft(m, nb, pb)
    ensures Linked(m', p1, up) && Nodes(m') == Nodes(m)
  {
    ghost var a, b, c := m.left, m.right.left, m.right.right;
    assert Linked(m.right, n.right, n);
    assert Linked(a, n.left, n) && Linked(b, n.right.left, n.right) && Linked(c, n.right.right, n.right);
    assert allocated(Nodes(a)) && allocated(Nodes(b)) && allocated(Nodes(c));
    p1 := TurnLeft(n, nb, pb);
    assert Linked(a, n.left, n) && Linked(b, n.right, n) && Linked(c, p1.right, p1);
    ghost var lo := Br(a, n, m.data, nb, b);
    assert Linked(lo, n, p1);
    m' := Br(lo, p1, m.right.data, pb, c);
  }

  /** Double rotation LR: the right child of the left child becomes the subtree root.  The source
      relinks the four subtrees in one go; two single rotations leave exactly the same heap. */
  method RotateLeftRight(n: Node, ghost m: Tree, ghost up: Node?) returns (p2: Node, ghost m': Tree)
    requires Linked(m, n, up) && m.Br? && m.left.Br? && m.left.right.Br?
    modifies Nodes(m)
    ensures m' == RotatedLeftRight(m)
    ensures Linked(m', p2, up) && Nodes(m') == Nodes(m)
  {
    assert Linked(m.left, n.left, n) && Linked(m.left.right, n.left.right, n.left);
    assert Linked(m.right, n.right, n) && allocated(Nodes(m.right));
    var b2 := n.left.right.balance;
    ghost var l';
    n.left, l' := RotateLeft(n.left, if b2 == 1 then -1 else 0, 0, m.left, n);
    ghost var m1 := Br(l', n, m.data, m.balance, m.right);
    assert Linked(m1, n, up);
    p2, m' := RotateRight(n, if b2 == -1 then 1 else 0, 0, m1, up);
  }

  /** Double rotation RL: the left child of the right child becomes the subtree root. */
  method RotateRightLeft(n: Node, ghost m: Tree, ghost up: Node?) returns (p2: Node, ghost m': Tree)
    requires Linked(m, n, up) && m.Br? && m.right.Br? && m.right.left.Br?
    modifies Nodes(m)
    ensures m' == RotatedRightLeft(m)
    ensures Linked(m', p2, up) && Nodes(m') == Nodes(m)
  {
    assert Linked(m.right, n.right, n) && Linked(m.right.left, n.right.left, n.right);
    assert Linked(m.left, n.left, n) && allocated(Nodes(m.left));
    var b2 := n.right.left.balance;
    ghost var r';
    n.right, r' := RotateRight(n.right, if b2 == -1 then 1 else 0, 0, m.right, n);
    ghost var m1 := Br(m.left, n, m.data, m.balance, r');
    assert Linked(m1, n, up);
    p2, m' := RotateLeft(n, if b2 == 1 then -1 else 0, 0, m1, up);
  }

  // ---------- rebalancing ----------

  /** `m` is an AVL node except that its balance byte does not yet count a change of `dl` levels
      in its left subtree and of `dr` levels in its right subtree. */
  ghost predicate Stale(m: Tree, dl: int, dr: int) {
    && m.Br? && Avl(m.left) && Avl(m.right) && -1 <= m.balance <= 1
    && m.balance == (Height(m.right) - dr) - (Height(m.left) - dl)
  }

  /** A node two levels too high on the left, whose left child does not lean right. */
  lemma RotatedRightAvl(m: Tree)
    requires m.Br? && Avl(m.left) && Avl(m.right) && Height(m.left) == Height(m.right) + 2
    requires m.left.balance <= 0
    ensures var even := m.left.balance == 0;
            var m' := RotatedRight(m, if even then -1 else 0, if even then 1 else 0);
            Avl(m') && Height(m') == Height(m.left) + (if even then 1 else 0)
  {
  }

  lemma RotatedLeftAvl(m: Tree)
    requires m.Br? && Avl(m.left) && Avl(m.right) && Height(m.right) == Height(m.left) + 2
    requires m.right.balance >= 0
    ensures var even := m.right.balance == 0;
            var m' := RotatedLeft(m, if even then 1 else 0, if even then -1 else 0);
            Avl(m') && Height(m') == Height(m.right) + (if even then 1 else 0)
  {
  }

  lemma RotatedLeftRightAvl(m: Tree)
    requires m.Br? && Avl(m.left) && Avl(m.right) && Height(m.left) == Height(m.right) + 2
    requires m.left.balance == 1
    ensures m.left.right.Br?
    ensures Avl(RotatedLeftRight(m)) && Height(RotatedLeftRight(m)) == Height(m.left)
  {
    var l, lr := m.left, m.left.right;
    assert Height(lr) == Height(m.right) + 1;
    assert Avl(lr);
  }

  lemma RotatedRightLeftAvl(m: Tree)
    requires m.Br? && Avl(m.left) && Avl(m.right) && Height(m.right) == Height(m.left) + 2
    requires m.right.balance == -1
    ensures m.right.left.Br?
    ensures Avl(RotatedRightLeft(m)) && Height(RotatedRightLeft(m)) == Height(m.right)
  {
    var r, rl := m.right, m.right.left;
    assert Height(rl) == Height(m.left) + 1;
    assert Avl(rl);
  }

  /** The height `m` had before those changes. */
  ghost function HeightBefore(m: Tree, dl: int, dr: int): int
    requires m.Br?
  {
    var hl, hr := Height(m.left) - dl, Height(m.right) - dr;
    1 + if hl < hr then hr else hl
  }

  /** The result of rebalancing `m`: the same items on the same nodes, again an AVL subtree. */
  ghost predicate Rebalanced(m: Tree, m': Tree, n: Node?, up: Node?)
    reads Nodes(m')
  {
    Linked(m', n, up) && Avl(m') && Nodes(m') == Nodes(m) && Items(m') == Items(m)
  }

  method SetBalance(n: Node, b: int, ghost m: Tree, ghost up: Node?) returns (ghost m': Tree)
    requires Linked(m, n, up)
    modifies n`balance
    ensures m' == m.(balance := b) && Linked(m', n, up) && Nodes(m') == Nodes(m) && Items(m') == Items(m)
  {
    assert allocated(Nodes(m.left)) && allocated(Nodes(m.right));
    n.balance := b;
    m' := m.(balance := b);
  }

  /** The `switch` of raptor_avltree_sprout_left, once the left subtree has grown a level. */
  method GrewLeft(n: Node, ghost m: Tree, ghost up: Node?) returns (r: Node, rebalancing: bool, ghost m': Tree)
    requires Linked(m, n, up) && Stale(m, 1, 0)
    requires m.left.Br? && (m.left.balance != 0 || Height(m.left) == 1)
    modifies Nodes(m)
    ensures Rebalanced(m, m', r, up)
    ensures Height(m') == HeightBefore(m, 1, 0) + if rebalancing then 1 else 0
    ensures rebalancing ==> m'.balance != 0
  {
    r, rebalancing, m' := n, true, m;
    if n.balance == 1 {
      m' := SetBalance(n, 0, m, up);
      rebalancing := false;
    } else if n.balance == 0 {
      m' := SetBalance(n, -1, m, up);
    } else {
      rebalancing := false;
      if n.left.balance == -1 {
        RotatedRightItems(m, 0, 0);
        RotatedRightAvl(m);
        r, m' := RotateRight(n, 0, 0, m, up);
      } else {
        RotatedLeftRightItems(m);
        RotatedLeftRightAvl(m);
        r, m' := RotateLeftRight(n, m, up);
      }
    }
  }

  /** The `switch` of raptor_avltree_sprout_right, once the right subtree has grown a level. */
  method GrewRight(n: Node, ghost m: Tree, ghost up: Node?) returns (r: Node, rebalancing: bool, ghost m': Tree)
    requires Linked(m, n, up) && Stale(m, 0, 1)
    requires m.right.Br? && (m.right.balance != 0 || Height(m.right) == 1)
    modifies Nodes(m)
    ensures Rebalanced(m, m', r, up)
    ensures Height(m') == HeightBefore(m, 0, 1) + if rebalancing then 1 else 0
    ensures rebalancing ==> m'.balance != 0
  {
    r, rebalancing, m' := n, true, m;
    if n.balance == -1 {
      m' := SetBalance(n, 0, m, up);
      rebalancing := false;
    } else if n.balance == 0 {
      m' := SetBalance(n, 1, m, up);
    } else {
      rebalancing := false;
      if n.right.balance == 1 {
        RotatedLeftItems(m, 0, 0);
        RotatedLeftAvl(m);
        r, m' := RotateLeft(n, 0, 0, m, up);
      } else {
        RotatedRightLeftItems(m);
        RotatedRightLeftAvl(m);
        r, m' := RotateRightLeft(n, m, up);
      }
    }
  }

  /** raptor_avltree_balance_left: the left subtree has lost a level.  The flag stays set exactly
      when the whole subtree has lost one too. */
  method BalanceLeft(n: Node, ghost m: Tree, ghost up: Node?) returns (r: Node, rebalancing: bool, ghost m': Tree)
    requires Linked(m, n, up) && Stale(m, -1, 0)
    modifies Nodes(m)
    ensures Rebalanced(m, m', r, up)
    ensures Height(m') == HeightBefore(m, -1, 0) - if rebalancing then 1 else 0
  {
    r, rebalancing, m' := n, true, m;
    if n.balance == -1 {
      m' := SetBalance(n, 0, m, up);
    } else if n.balance == 0 {
      m' := SetBalance(n, 1, m, up);
      rebalancing := false;
    } else {
      var b1 := n.right.balance;
      if b1 >= 0 {
        RotatedLeftItems(m, if b1 == 0 then 1 else 0, if b1 == 0 then -1 else 0);
        RotatedLeftAvl(m);
        r, m' := RotateLeft(n, if b1 == 0 then 1 else 0, if b1 == 0 then -1 else 0, m, up);
        rebalancing := b1 != 0;
      } else {
        RotatedRightLeftItems(m);
        RotatedRightLeftAvl(m);
        r, m' := RotateRightLeft(n, m, up);
      }
    }
  }

  /** raptor_avltree_balance_right: the right subtree has lost a level. */
  method BalanceRight(n: Node, ghost m: Tree, ghost up: Node?) returns (r: Node, rebalancing: bool, ghost m': Tree)
    requires Linked(m, n, up) && Stale(m, 0, -1)
    modifies Nodes(m)
    ensures Rebalanced(m, m', r, up)
    ensures Height(m') == HeightBefore(m, 0, -1) - if rebalancing then 1 else 0
  {
    r, rebalancing, m' := n, true, m;
    if n.balance == 1 {
      m' := SetBalance(n, 0, m, up);
    } else if n.balance == 0 {
      m' := SetBalance(n, -1, m, up);
      rebalancing := false;
    } else {
      var b1 := n.left.balance;
      if b1 <= 0 {
        RotatedRightItems(m, if b1 == 0 then -1 else 0, if b1 == 0 then 1 else 0);
        RotatedRightAvl(m);
        r, m' := RotateRight(n, if b1 == 0 then -1 else 0, if b1 == 0 then 1 else 0, m, up);
        rebalancing := b1 != 0;
      } else {
        RotatedLeftRightItems(m);
        RotatedLeftRightAvl(m);
        r, m' := RotateLeftRight(n, m, up);
      }
    }
  }
}
