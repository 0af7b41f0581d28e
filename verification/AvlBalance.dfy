/**
 The balance of the tree: what insert keeps, what erase is meant to keep, and
 exactly when the source's erase does keep it.
 */
module AvlBalance {
  import opened Wrappers
  import opened AvlTree
  import opened AvlSet

  /** An AVL tree whose stored heights are right. */
  ghost predicate Avl(t: Tree) {
    Exact(t) && Balanced(t)
  }

  lemma SetParentAvl(t: Tree, p: nat)
    ensures Avl(t) ==> Avl(SetParent(t, p))
  {
  }

  // ---------------------------------------------------------------- the four rotations

  /** `t` joins two AVL trees, the left one two levels higher. */
  ghost predicate LeansLeft(t: Tree) {
    t.Node? && Avl(t.left) && Avl(t.right) && H(t.left) == H(t.right) + 2
  }

  ghost predicate LeansRight(t: Tree) {
    t.Node? && Avl(t.left) && Avl(t.right) && H(t.right) == H(t.left) + 2
  }

  lemma SingleRight(t: Tree)
    requires LeansLeft(t) && H(t.left.left) >= H(t.left.right)
    ensures Avl(RotateRight(t))
    ensures H(RotateRight(t)) == H(t.right) + (if H(t.left.left) == H(t.left.right) then 3 else 2)
  {
    var x := t.left;
    assert Avl(x.left) && Avl(x.right);
    SetParentAvl(x.right, t.id);
    assert Avl(Refresh(t.(parent := x.id, left := SetParent(x.right, t.id))));
  }

  lemma SingleLeft(t: Tree)
    requires LeansRight(t) && H(t.right.right) >= H(t.right.left)
    ensures Avl(RotateLeft(t))
    ensures H(RotateLeft(t)) == H(t.left) + (if H(t.right.left) == H(t.right.right) then 3 else 2)
  {
    var y := t.right;
    assert Avl(y.left) && Avl(y.right);
    SetParentAvl(y.left, t.id);
    assert Avl(Refresh(t.(parent := y.id, right := SetParent(y.left, t.id))));
  }

  lemma DoubleRight(t: Tree)
    requires LeansLeft(t) && H(t.left.left) < H(t.left.right)
    ensures t.left.right.Node?
    ensures var r := RotateRight(t.(left := RotateLeft(t.left)));
      Avl(r) && H(r) == H(t.right) + 2
  {
    var x := t.left;
    var g := x.right;
    assert Avl(x.left) && Avl(g);
    assert Avl(g.left) && Avl(g.right);
    SetParentAvl(g.left, x.id);
    SetParentAvl(g.right, t.id);
    var x' := Refresh(x.(parent := g.id, right := SetParent(g.left, x.id)));
    assert Avl(x') && H(x') == H(t.right) + 1;
    var g' := Refresh(g.(parent := x.parent, left := x'));
    assert RotateLeft(x) == g' && g'.right == g.right;
    var t' := Refresh(t.(parent := g.id, left := SetParent(g.right, t.id)));
    assert Avl(t') && H(t') == H(t.right) + 1;
    assert RotateRight(t.(left := g')) == Refresh(g'.(parent := t.parent, right := t'));
  }

  lemma DoubleLeft(t: Tree)
    requires LeansRight(t) && H(t.right.right) < H(t.right.left)
    ensures t.right.left.Node?
    ensures var r := RotateLeft(t.(right := RotateRight(t.right)));
      Avl(r) && H(r) == H(t.left) + 2
  {
    var y := t.right;
    var g := y.left;
    assert Avl(y.right) && Avl(g);
    assert Avl(g.left) && Avl(g.right);
    SetParentAvl(g.right, y.id);
    SetParentAvl(g.left, t.id);
    var y' := Refresh(y.(parent := g.id, left := SetParent(g.right, y.id)));
    assert Avl(y') && H(y') == H(t.left) + 1;
    var g' := Refresh(g.(parent := y.parent, right := y'));
    assert RotateRight(y) == g' && g'.left == g.left;
    var t' := Refresh(t.(parent := g.id, right := SetParent(g.left, t.id)));
    assert Avl(t') && H(t') == H(t.left) + 1;
    assert RotateLeft(t.(right := g')) == Refresh(g'.(parent := t.parent, left := t'));
  }

  // ---------------------------------------------------------------- insert

  /** An insertion of `v` into the AVL tree `t` gives an AVL tree, one level higher at most, and then leaning to the side of `v`. */
  ghost predicate Grown(t: Tree, v: int, r: Tree) {
    && r.Node? && Avl(r)
    && H(t) <= H(r) <= H(t) + 1
    && (t.Node? && H(r) == H(t) + 1 ==>
          || (v < r.val && H(r.left) == H(r.right) + 1)
          || (v > r.val && H(r.right) == H(r.left) + 1))
  }

  lemma GrownLeft(t: Tree, v: int, l: Tree)
    requires t.Node? && Avl(t) && v < t.val && Grown(t.left, v, l)
    ensures var u := RebalanceInsert(Refresh(t.(left := SetParent(l, t.id))), v);
      u.Some? && Grown(t, v, u.value)
  {
    assert Avl(t.left) && Avl(t.right);
    SetParentAvl(l, t.id);
    var u := Refresh(t.(left := SetParent(l, t.id)));
    if H(l) == H(t.right) + 2 {
      assert t.left.Node? && LeansLeft(u);
      if v < l.val {
        SingleRight(u);
      } else {
        DoubleRight(u);
      }
    }
  }

  lemma GrownRight(t: Tree, v: int, r: Tree)
    requires t.Node? && Avl(t) && v > t.val && Grown(t.right, v, r)
    ensures var u := RebalanceInsert(Refresh(t.(right := SetParent(r, t.id))), v);
      u.Some? && Grown(t, v, u.value)
  {
    assert Avl(t.left) && Avl(t.right);
    SetParentAvl(r, t.id);
    var u := Refresh(t.(right := SetParent(r, t.id)));
    if H(r) == H(t.left) + 2 {
      assert t.right.Node? && LeansRight(u);
      if v > r.val {
        SingleLeft(u);
      } else {
        DoubleLeft(u);
      }
    }
  }

  /** Into an AVL tree, every insertion completes, keeps it an AVL tree and adds one level at most. */
  lemma {:induction false} InsertKeepsAvl(t: Tree, v: int, nonce: nat)
    requires Avl(t)
    ensures TreeInsert(t, v, nonce).Some? && Grown(t, v, TreeInsert(t, v, nonce).value)
  {
    if t.Node? {
      if v < t.val {
        InsertKeepsAvl(t.left, v, nonce);
        GrownLeft(t, v, TreeInsert(t.left, v, nonce).value);
      } else if v > t.val {
        InsertKeepsAvl(t.right, v, nonce);
        GrownRight(t, v, TreeInsert(t.right, v, nonce).value);
      }
    }
  }

  // ---------------------------------------------------------------- erase

  /** Erasing from the AVL tree `t` gives an AVL tree, one level lower at most. */
  ghost predicate Shrunk(t: Tree, r: Tree) {
    Avl(r) && H(r) <= H(t) <= H(r) + 1
  }

  lemma SpliceShrinks(t: Tree)
    requires t.Node? && Avl(t) && (t.left.Leaf? || t.right.Leaf?)
    ensures Shrunk(t, Splice(t)) && (Splice(t).Node? ==> Refresh(Splice(t)) == Splice(t))
    ensures t.left.Node? ==> t.left.left.Leaf? && t.left.right.Leaf?
    ensures t.right.Node? ==> t.right.left.Leaf? && t.right.right.Leaf?
  {
    assert Avl(t.left) && Avl(t.right);
  }

  lemma ShrunkLeft(t: Tree, l: Tree, rule: TieRule)
    requires t.Node? && Avl(t) && Shrunk(t.left, l)
    requires H(t.right) == H(l) + 2 && H(t.right.left) == H(t.right.right) ==> rule.TieToSingle?
    ensures Shrunk(t, Settle(t.(left := l), rule))
  {
    assert Avl(t.left) && Avl(t.right);
    var u := Refresh(t.(left := l));
    if H(t.right) == H(l) + 2 {
      assert LeansRight(u);
      if H(t.right.left) > H(t.right.right) {
        DoubleLeft(u);
      } else {
        SingleLeft(u);
      }
    }
  }

  lemma ShrunkRight(t: Tree, r: Tree, rule: TieRule)
    requires t.Node? && Avl(t) && Shrunk(t.right, r)
    ensures Shrunk(t, Settle(t.(right := r), rule))
  {
    assert Avl(t.left) && Avl(t.right);
    var u := Refresh(t.(right := r));
    if H(t.left) == H(r) + 2 {
      assert LeansLeft(u);
      if H(t.left.left) >= H(t.left.right) {
        SingleRight(u);
      } else {
        DoubleRight(u);
      }
    }
  }

  lemma ShrunkSetParent(t: Tree, r: Tree, p: nat)
    requires Shrunk(t, r)
    ensures Shrunk(t, SetParent(r, p))
  {
  }

  /** With ties going to the single rotation, every erase keeps an AVL tree and removes one level at most. */
  lemma {:induction false} DeleteKeepsAvl(t: Tree, v: int)
    requires Avl(t)
    ensures Shrunk(t, TreeDelete(t, v, TieToSingle))
    decreases t
  {
    if t.Node? {
      assert Avl(t.left) && Avl(t.right);
      if v < t.val {
        DeleteKeepsAvl(t.left, v);
        var l := TreeDelete(t.left, v, TieToSingle);
        ShrunkSetParent(t.left, l, t.id);
        ShrunkLeft(t, SetParent(l, t.id), TieToSingle);
      } else if v > t.val {
        DeleteKeepsAvl(t.right, v);
        var r := TreeDelete(t.right, v, TieToSingle);
        ShrunkSetParent(t.right, r, t.id);
        ShrunkRight(t, SetParent(r, t.id), TieToSingle);
      } else if t.left.Leaf? || t.right.Leaf? {
        SpliceShrinks(t);
      } else {
        var m := Min(t.right);
        DeleteKeepsAvl(t.right, m);
        ShrunkRight(t.(val := m), TreeDelete(t.right, m, TieToSingle), TieToSingle);
      }
    }
  }

  // ---------------------------------------------------------------- the erase as written

  /** A side that falls by a level takes its parent down with it when it was the higher one, or when it calls an uneven rotation. */
  predicate FallsWithLeft(t: Tree)
    requires t.Node?
  {
    H(t.left) > H(t.right) || (H(t.right) > H(t.left) && t.right.Node? && H(t.right.left) != H(t.right.right))
  }

  predicate FallsWithRight(t: Tree)
    requires t.Node?
  {
    H(t.right) > H(t.left) || (H(t.left) > H(t.right) && t.left.Node? && H(t.left.left) != H(t.left.right))
  }

  /** Erasing `v` from the AVL tree `t`, as written, takes a level off: told from the heights along the path of `v`. */
  predicate Lowers(t: Tree, v: int) {
    if t.Leaf? then false
    else if v < t.val then Lowers(t.left, v) && FallsWithLeft(t)
    else if v > t.val then Lowers(t.right, v) && FallsWithRight(t)
    else if t.left.Leaf? || t.right.Leaf? then true
    else Lowers(t.right, Min(t.right)) && FallsWithRight(t)
  }

  /** The branch that goes wrong: the right side is higher, its root is even, and that root's left child leans left. */
  predicate LopsidedTieAt(t: Tree)
    requires t.Node?
  {
    && H(t.right) == H(t.left) + 1
    && t.right.Node? && H(t.right.left) == H(t.right.right)
    && t.right.left.Node? && H(t.right.left.right) < H(t.right.left.left)
  }

  /** Erasing `v` from `t` meets that branch: at some node of its path the left side falls by a level. */
  predicate LopsidedTie(t: Tree, v: int) {
    if t.Leaf? then false
    else if v < t.val then LopsidedTie(t.left, v) || (Lowers(t.left, v) && LopsidedTieAt(t))
    else if v > t.val then LopsidedTie(t.right, v)
    else if t.left.Leaf? || t.right.Leaf? then false
    else LopsidedTie(t.right, Min(t.right))
  }

  lemma EvenDouble(t: Tree)
    requires LeansRight(t) && H(t.right.left) == H(t.right.right)
    ensures t.right.left.Node?
    ensures var r := RotateLeft(t.(right := RotateRight(t.right)));
      && H(r) == H(t.left) + 3
      && (Balanced(r) <==> H(t.right.left.left) <= H(t.right.left.right))
  {
    var y := t.right;
    var g := y.left;
    assert Avl(y.right) && Avl(g);
    assert Avl(g.left) && Avl(g.right);
    SetParentAvl(g.right, y.id);
    SetParentAvl(g.left, t.id);
    var y' := Refresh(y.(parent := g.id, left := SetParent(g.right, y.id)));
    var g' := Refresh(g.(parent := y.parent, right := y'));
    assert RotateRight(y) == g' && g'.left == g.left;
    var t' := Refresh(t.(parent := g.id, right := SetParent(g.left, t.id)));
    assert Avl(t');
    var r := Refresh(g'.(parent := t.parent, left := t'));
    assert RotateLeft(t.(right := g')) == r;
    assert r.left == t' && r.right == y' && Balanced(y'.left) && Balanced(y'.right);
    assert Balanced(y') <==> H(y.right) <= H(g.right) + 1;
  }

  /** What the erase as written does to an AVL tree: whether it met the bad branch, and whether it took a level off. */
  ghost predicate ErasedAsWritten(t: Tree, r: Tree, lopsided: bool, lowers: bool) {
    && H(t) == H(r) + (if lowers then 1 else 0)
    && (Balanced(r) <==> !lopsided)
    && (lopsided ==> !lowers)
  }

  lemma AsWrittenLeft(t: Tree, l: Tree, lopsided: bool, lowers: bool)
    requires t.Node? && Avl(t) && Exact(l) && ErasedAsWritten(t.left, l, lopsided, lowers)
    ensures ErasedAsWritten(t, Settle(t.(left := l), AsWritten),
                            lopsided || (lowers && LopsidedTieAt(t)), lowers && FallsWithLeft(t))
  {
    assert Avl(t.left) && Avl(t.right);
    var u := Refresh(t.(left := l));
    if H(t.right) == H(l) + 2 {
      assert LeansRight(u) && !lopsided;
      if H(t.right.left) == H(t.right.right) {
        EvenDouble(u);
      } else if H(t.right.left) > H(t.right.right) {
        DoubleLeft(u);
      } else {
        SingleLeft(u);
      }
    } else {
      assert Settle(t.(left := l), AsWritten) == u;
    }
  }

  lemma AsWrittenRight(t: Tree, r: Tree, lopsided: bool, lowers: bool)
    requires t.Node? && Avl(t) && Exact(r) && ErasedAsWritten(t.right, r, lopsided, lowers)
    ensures ErasedAsWritten(t, Settle(t.(right := r), AsWritten), lopsided, lowers && FallsWithRight(t))
  {
    assert Avl(t.left) && Avl(t.right);
    var u := Refresh(t.(right := r));
    if H(t.left) == H(r) + 2 {
      assert LeansLeft(u) && !lopsided;
      if H(t.left.left) >= H(t.left.right) {
        SingleRight(u);
      } else {
        DoubleRight(u);
      }
    } else {
      assert Settle(t.(right := r), AsWritten) == u;
    }
  }

  /**
   From an AVL tree, the erase as written keeps balance if and only if its path meets no lopsided tie,
   and it takes a level off exactly when the heights along the path say so.
   */
  lemma {:induction false} DeleteAsWrittenBalance(t: Tree, v: int)
    requires Avl(t)
    ensures ErasedAsWritten(t, TreeDelete(t, v, AsWritten), LopsidedTie(t, v), Lowers(t, v))
    decreases t
  {
    if t.Node? {
      assert Avl(t.left) && Avl(t.right);
      if v < t.val {
        DeleteAsWrittenBalance(t.left, v);
        var l := TreeDelete(t.left, v, AsWritten);
        AsWrittenLeft(t, SetParent(l, t.id), LopsidedTie(t.left, v), Lowers(t.left, v));
      } else if v > t.val {
        DeleteAsWrittenBalance(t.right, v);
        var r := TreeDelete(t.right, v, AsWritten);
        AsWrittenRight(t, SetParent(r, t.id), LopsidedTie(t.right, v), Lowers(t.right, v));
      } else if t.left.Leaf? || t.right.Leaf? {
        SpliceShrinks(t);
      } else {
        var m := Min(t.right);
        DeleteAsWrittenBalance(t.right, m);
        AsWrittenRight(t.(val := m), TreeDelete(t.right, m, AsWritten), LopsidedTie(t.right, m), Lowers(t.right, m));
      }
    }
  }

  // ---------------------------------------------------------------- search depth

  function Fib(n: nat): nat {
    if n < 2 then n else Fib(n - 1) + Fib(n - 2)
  }

  lemma {:induction false} FibMonotone(m: nat, n: nat)
    requires m <= n
    ensures Fib(m) <= Fib(n)
    decreases n
  {
    if m < n {
      FibMonotone(m, n - 1);
    }
  }

  /** A balanced tree of height h holds at least Fib(h + 2) - 1 values. */
  lemma {:induction false} BalancedIsShallow(t: Tree)
    requires Avl(t)
    ensures Size(t) + 1 >= Fib(H(t) + 2)
  {
    if t.Node? {
      BalancedIsShallow(t.left);
      BalancedIsShallow(t.right);
      FibMonotone(H(t), H(t.left) + 2);
      FibMonotone(H(t), H(t.right) + 2);
      assert Fib(H(t) + 2) == Fib(H(t) + 1) + Fib(H(t));
    }
  }
}
