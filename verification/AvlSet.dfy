/**
 What insert and erase mean: every tree they build is a search tree with exact
 heights over unshared nonces, and its values are those of a mathematical set.
 Nothing here needs balance.
 */
module AvlSet {
  import opened Wrappers
  import opened AvlTree

  // ---------------------------------------------------------------- rotations

  lemma SetParentKeeps(t: Tree, p: nat)
    ensures Vals(SetParent(t, p)) == Vals(t) && Ids(SetParent(t, p)) == Ids(t)
    ensures Bst(t) ==> Bst(SetParent(t, p))
    ensures Unshared(t) ==> Unshared(SetParent(t, p))
    ensures forall q :: Linked(t, q) ==> Linked(SetParent(t, p), p)
  {
  }

  lemma RotateRightContents(y: Tree)
    requires y.Node? && y.left.Node?
    ensures Vals(RotateRight(y)) == Vals(y) && Ids(RotateRight(y)) == Ids(y)
  {
    hide Bst, Unshared, Linked, H;
    var x := y.left;
    SetParentKeeps(x.right, y.id);
    var lowered := Refresh(y.(parent := x.id, left := SetParent(x.right, y.id)));
    assert Vals(lowered) == Vals(x.right) + {y.val} + Vals(y.right);
    assert Ids(lowered) == Ids(x.right) + {y.id} + Ids(y.right);
    assert Vals(y) == Vals(x.left) + {x.val} + Vals(x.right) + {y.val} + Vals(y.right);
    assert Ids(y) == Ids(x.left) + {x.id} + Ids(x.right) + {y.id} + Ids(y.right);
  }

  lemma RotateRightOrdered(y: Tree)
    requires y.Node? && y.left.Node? && Bst(y)
    ensures Bst(RotateRight(y))
  {
    hide Ids, Unshared, Linked, H;
    var x := y.left;
    SetParentKeeps(x.right, y.id);
    var lowered := Refresh(y.(parent := x.id, left := SetParent(x.right, y.id)));
    assert Bst(x) && x.val in Vals(x) && forall k :: k in Vals(x.right) ==> k in Vals(x);
    assert Bst(lowered);
    assert Vals(lowered) == Vals(x.right) + {y.val} + Vals(y.right);
  }

  lemma RotateRightUnshared(y: Tree)
    requires y.Node? && y.left.Node? && Unshared(y)
    ensures Unshared(RotateRight(y))
  {
    hide Vals, Bst, Linked, H;
    var x := y.left;
    SetParentKeeps(x.right, y.id);
    var lowered := Refresh(y.(parent := x.id, left := SetParent(x.right, y.id)));
    assert Unshared(x) && x.id in Ids(x);
    assert Unshared(lowered);
    assert Ids(lowered) == Ids(x.right) + {y.id} + Ids(y.right);
  }

  lemma RotateRightLinked(y: Tree, p: nat)
    requires y.Node? && y.left.Node? && Linked(y, p)
    ensures Linked(RotateRight(y), p)
  {
    hide Vals, Ids, Bst, Unshared, H;
    var x := y.left;
    SetParentKeeps(x.right, y.id);
    assert Linked(x, y.id) && Linked(x.right, x.id);
    assert Linked(Refresh(y.(parent := x.id, left := SetParent(x.right, y.id))), x.id);
  }

  lemma RotateRightKeeps(y: Tree)
    requires y.Node? && y.left.Node?
    ensures var r := RotateRight(y);
      && r.Node? && r.id == y.left.id
      && Vals(r) == Vals(y) && Ids(r) == Ids(y)
      && (Bst(y) ==> Bst(r)) && (Unshared(y) ==> Unshared(r))
      && (forall p :: Linked(y, p) ==> Linked(r, p))
  {
    hide Vals, Ids, Bst, Unshared, Linked, H;
    RotateRightContents(y);
    if Bst(y) {
      RotateRightOrdered(y);
    }
    if Unshared(y) {
      RotateRightUnshared(y);
    }
    forall p | Linked(y, p)
      ensures Linked(RotateRight(y), p)
    {
      RotateRightLinked(y, p);
    }
  }

  lemma RotateLeftContents(x: Tree)
    requires x.Node? && x.right.Node?
    ensures Vals(RotateLeft(x)) == Vals(x) && Ids(RotateLeft(x)) == Ids(x)
  {
    hide Bst, Unshared, Linked, H;
    var y := x.right;
    SetParentKeeps(y.left, x.id);
    var lowered := Refresh(x.(parent := y.id, right := SetParent(y.left, x.id)));
    assert Vals(lowered) == Vals(x.left) + {x.val} + Vals(y.left);
    assert Ids(lowered) == Ids(x.left) + {x.id} + Ids(y.left);
    assert Vals(x) == Vals(x.left) + {x.val} + Vals(y.left) + {y.val} + Vals(y.right);
    assert Ids(x) == Ids(x.left) + {x.id} + Ids(y.left) + {y.id} + Ids(y.right);
  }

  lemma RotateLeftOrdered(x: Tree)
    requires x.Node? && x.right.Node? && Bst(x)
    ensures Bst(RotateLeft(x))
  {
    hide Ids, Unshared, Linked, H, SetParent;
    var y := x.right;
    SetParentKeeps(y.left, x.id);
    var lowered := Refresh(x.(parent := y.id, right := SetParent(y.left, x.id)));
    BstSubset(x);
    assert Bst(lowered) && Vals(lowered) == Vals(x.left) + {x.val} + Vals(y.left);
  }

  /** The values of the right side are greater than the root, those of its left side among them. */
  lemma BstSubset(x: Tree)
    requires x.Node? && x.right.Node? && Bst(x)
    ensures x.val < x.right.val && forall k :: k in Vals(x.right.left) ==> x.val < k
  {
    assert x.right.val in Vals(x.right);
    assert forall k :: k in Vals(x.right.left) ==> k in Vals(x.right);
  }

  lemma RotateLeftUnshared(x: Tree)
    requires x.Node? && x.right.Node? && Unshared(x)
    ensures Unshared(RotateLeft(x))
  {
    hide Vals, Bst, Linked, H;
    var y := x.right;
    SetParentKeeps(y.left, x.id);
    var lowered := Refresh(x.(parent := y.id, right := SetParent(y.left, x.id)));
    assert Unshared(y) && y.id in Ids(y);
    assert Unshared(lowered);
    assert Ids(lowered) == Ids(x.left) + {x.id} + Ids(y.left);
  }

  lemma RotateLeftLinked(x: Tree, p: nat)
    requires x.Node? && x.right.Node? && Linked(x, p)
    ensures Linked(RotateLeft(x), p)
  {
    hide Vals, Ids, Bst, Unshared, H;
    var y := x.right;
    SetParentKeeps(y.left, x.id);
    assert Linked(y, x.id) && Linked(y.left, y.id);
    assert Linked(Refresh(x.(parent := y.id, right := SetParent(y.left, x.id))), y.id);
  }

  lemma RotateLeftKeeps(x: Tree)
    requires x.Node? && x.right.Node?
    ensures var r := RotateLeft(x);
      && r.Node? && r.id == x.right.id
      && Vals(r) == Vals(x) && Ids(r) == Ids(x)
      && (Bst(x) ==> Bst(r)) && (Unshared(x) ==> Unshared(r))
      && (forall p :: Linked(x, p) ==> Linked(r, p))
  {
    hide Vals, Ids, Bst, Unshared, Linked, H;
    RotateLeftContents(x);
    if Bst(x) {
      RotateLeftOrdered(x);
    }
    if Unshared(x) {
      RotateLeftUnshared(x);
    }
    forall p | Linked(x, p)
      ensures Linked(RotateLeft(x), p)
    {
      RotateLeftLinked(x, p);
    }
  }

  /** `r` has the values and nonces of `t`, and is as well-formed as `t`. */
  ghost predicate SameContents(t: Tree, r: Tree) {
    && Vals(r) == Vals(t) && Ids(r) == Ids(t)
    && (Exact(t) ==> Exact(r)) && (Bst(t) ==> Bst(r)) && (Unshared(t) ==> Unshared(r))
    && (forall p :: Linked(t, p) ==> Linked(r, p))
  }

  lemma RotateLeftBelow(t: Tree)
    requires t.Node? && t.left.Node? && t.left.right.Node?
    ensures var r := t.(left := RotateLeft(t.left));
      Vals(r) == Vals(t) && Ids(r) == Ids(t) && (Bst(t) ==> Bst(r)) && (Unshared(t) ==> Unshared(r))
      && (forall p :: Linked(t, p) ==> Linked(r, p))
  {
    RotateLeftKeeps(t.left);
  }

  lemma RotateRightBelow(t: Tree)
    requires t.Node? && t.right.Node? && t.right.left.Node?
    ensures var r := t.(right := RotateRight(t.right));
      Vals(r) == Vals(t) && Ids(r) == Ids(t) && (Bst(t) ==> Bst(r)) && (Unshared(t) ==> Unshared(r))
      && (forall p :: Linked(t, p) ==> Linked(r, p))
  {
    RotateRightKeeps(t.right);
  }

  lemma RebalanceInsertKeeps(t: Tree, v: int)
    requires t.Node? && RebalanceInsert(t, v).Some?
    ensures SameContents(t, RebalanceInsert(t, v).value)
  {
    if Exact(t) { assert Exact(t.left) && Exact(t.right); }
    if H(t.left) > H(t.right) + 1 {
      if v < t.left.val {
        RotateRightKeeps(t);
      } else if v > t.left.val {
        RotateLeftBelow(t);
        RotateRightKeeps(t.(left := RotateLeft(t.left)));
      }
    } else if H(t.right) > H(t.left) + 1 {
      if v > t.right.val {
        RotateLeftKeeps(t);
      } else if v < t.right.val {
        RotateRightBelow(t);
        RotateLeftKeeps(t.(right := RotateRight(t.right)));
      }
    }
  }

  lemma RebalanceDeleteKeeps(t: Tree, rule: TieRule)
    requires t.Node? && Exact(t)
    ensures SameContents(t, RebalanceDelete(t, rule)) && RebalanceDelete(t, rule).Node?
  {
    assert Exact(t.left) && Exact(t.right);
    if H(t.left) > H(t.right) + 1 {
      if H(t.left.left) >= H(t.left.right) {
        RotateRightKeeps(t);
      } else {
        RotateLeftBelow(t);
        RotateRightKeeps(t.(left := RotateLeft(t.left)));
      }
    } else if H(t.right) > H(t.left) + 1 {
      if H(t.right.left) < H(t.right.right) || (rule.TieToSingle? && H(t.right.left) == H(t.right.right)) {
        RotateLeftKeeps(t);
      } else {
        RotateRightBelow(t);
        RotateLeftKeeps(t.(right := RotateRight(t.right)));
      }
    }
  }

  // ---------------------------------------------------------------- insert

  /** `r` is an exact tree with the contents of `u`, and well-formed if `u` is. */
  ghost predicate Rearranges(u: Tree, r: Tree) {
    && r.Node? && Exact(r) && Vals(r) == Vals(u) && Ids(r) == Ids(u)
    && (Bst(u) ==> Bst(r)) && (Unshared(u) ==> Unshared(r))
  }

  /** Hanging `l` under `t` on the left. */
  lemma GraftLeft(t: Tree, l: Tree)
    requires t.Node? && Sound(t) && Sound(l)
    requires forall x :: x in Vals(l) ==> x < t.val
    requires t.id !in Ids(l) && Ids(l) !! Ids(t.right)
    ensures var u := t.(left := SetParent(l, t.id));
      && Exact(u.left) && Exact(u.right) && Bst(u) && Unshared(u)
      && Vals(u) == Vals(l) + {t.val} + Vals(t.right) && Ids(u) == Ids(l) + {t.id} + Ids(t.right)
  {
    SetParentKeeps(l, t.id);
  }

  lemma GraftRight(t: Tree, r: Tree)
    requires t.Node? && Sound(t) && Sound(r)
    requires forall x :: x in Vals(r) ==> t.val < x
    requires t.id !in Ids(r) && Ids(r) !! Ids(t.left)
    ensures var u := t.(right := SetParent(r, t.id));
      && Exact(u.left) && Exact(u.right) && Bst(u) && Unshared(u)
      && Vals(u) == Vals(t.left) + {t.val} + Vals(r) && Ids(u) == Ids(t.left) + {t.id} + Ids(r)
  {
    SetParentKeeps(r, t.id);
  }

  /** Which side of a search tree a value can be on. */
  lemma BstSides(t: Tree, v: int)
    requires t.Node? && Bst(t)
    ensures v < t.val ==> (v in Vals(t) <==> v in Vals(t.left)) && v !in Vals(t.right)
    ensures v > t.val ==> (v in Vals(t) <==> v in Vals(t.right)) && v !in Vals(t.left)
    ensures v == t.val ==> v in Vals(t) && v !in Vals(t.left) && v !in Vals(t.right)
  {
  }

  /** `r` is `t` with `v` added: the new nonce is used exactly when `v` was absent. */
  ghost predicate Added(t: Tree, v: int, nonce: nat, r: Tree) {
    && Sound(r) && r.Node?
    && Vals(r) == Vals(t) + {v}
    && Ids(r) == Ids(t) + (if v in Vals(t) then {} else {nonce})
  }

  lemma AddedLeft(t: Tree, v: int, nonce: nat, l: Tree, res: Tree)
    requires t.Node? && Sound(t) && v < t.val && nonce !in Ids(t) && Added(t.left, v, nonce, l)
    requires Rearranges(t.(left := SetParent(l, t.id)), res)
    ensures Added(t, v, nonce, res)
  {
    BstSides(t, v);
    GraftLeft(t, l);
  }

  lemma AddedRight(t: Tree, v: int, nonce: nat, r: Tree, res: Tree)
    requires t.Node? && Sound(t) && v > t.val && nonce !in Ids(t) && Added(t.right, v, nonce, r)
    requires Rearranges(t.(right := SetParent(r, t.id)), res)
    ensures Added(t, v, nonce, res)
  {
    BstSides(t, v);
    GraftRight(t, r);
  }

  lemma RefreshThenRebalance(u: Tree, v: int)
    requires u.Node? && Exact(u.left) && Exact(u.right) && RebalanceInsert(Refresh(u), v).Some?
    ensures Rearranges(u, RebalanceInsert(Refresh(u), v).value)
  {
    RebalanceInsertKeeps(Refresh(u), v);
  }

  /** A completed insertion adds exactly `v`, and uses the new nonce exactly when `v` was absent. */
  lemma {:induction false} InsertAdds(t: Tree, v: int, nonce: nat)
    requires Sound(t) && nonce != 0 && nonce !in Ids(t)
    requires TreeInsert(t, v, nonce).Some?
    ensures Added(t, v, nonce, TreeInsert(t, v, nonce).value)
  {
    if t.Node? {
      BstSides(t, v);
      if v < t.val {
        InsertAdds(t.left, v, nonce);
        var l := TreeInsert(t.left, v, nonce).value;
        RefreshThenRebalance(t.(left := SetParent(l, t.id)), v);
        AddedLeft(t, v, nonce, l, TreeInsert(t, v, nonce).value);
      } else if v > t.val {
        InsertAdds(t.right, v, nonce);
        var r := TreeInsert(t.right, v, nonce).value;
        RefreshThenRebalance(t.(right := SetParent(r, t.id)), v);
        AddedRight(t, v, nonce, r, TreeInsert(t, v, nonce).value);
      }
    }
  }

  // ---------------------------------------------------------------- erase

  /**
   The tree that an insertion leaves when it throws: below the node whose rotation failed all is
   done, that node has its new height, and those above it are as they were.
   */
  function Interrupted(t: Tree, v: int, nonce: nat): Tree {
    if t.Leaf? || v == t.val then t
    else if v < t.val then
      var l := TreeInsert(t.left, v, nonce);
      if l.None? then t.(left := Interrupted(t.left, v, nonce)) else Refresh(t.(left := SetParent(l.value, t.id)))
    else
      var r := TreeInsert(t.right, v, nonce);
      if r.None? then t.(right := Interrupted(t.right, v, nonce)) else Refresh(t.(right := SetParent(r.value, t.id)))
  }

  /** `r` is a search tree with the values and nonces of `t` and perhaps one more of each; heights may be stale. */
  ghost predicate Gained(t: Tree, v: int, nonce: nat, r: Tree) {
    && r.Node? && Bst(r) && Unshared(r)
    && Vals(r) == Vals(t) + {v}
    && Ids(r) == Ids(t) + (if v in Vals(t) then {} else {nonce})
  }

  lemma GainedLeft(t: Tree, v: int, nonce: nat, l: Tree)
    requires t.Node? && Sound(t) && v < t.val && nonce != 0 && nonce !in Ids(t) && Gained(t.left, v, nonce, l)
    ensures Gained(t, v, nonce, t.(left := l))
  {
    BstSides(t, v);
  }

  lemma GainedRight(t: Tree, v: int, nonce: nat, r: Tree)
    requires t.Node? && Sound(t) && v > t.val && nonce != 0 && nonce !in Ids(t) && Gained(t.right, v, nonce, r)
    ensures Gained(t, v, nonce, t.(right := r))
  {
    BstSides(t, v);
  }

  lemma GainedRefreshed(t: Tree, v: int, nonce: nat, sub: Tree, p: nat)
    requires Gained(t, v, nonce, sub)
    ensures Gained(t, v, nonce, SetParent(sub, p))
  {
    SetParentKeeps(sub, p);
  }

  /** An insertion that throws has added its value all the same; the heights above the failure may be stale. */
  lemma {:induction false} InterruptedAdds(t: Tree, v: int, nonce: nat)
    requires Sound(t) && nonce != 0 && nonce !in Ids(t) && TreeInsert(t, v, nonce).None?
    ensures t.Node? && Gained(t, v, nonce, Interrupted(t, v, nonce)) && Interrupted(t, v, nonce).id == t.id
  {
    hide RebalanceInsert, Gained;
    if v < t.val {
      if TreeInsert(t.left, v, nonce).None? {
        InterruptedAdds(t.left, v, nonce);
        GainedLeft(t, v, nonce, Interrupted(t.left, v, nonce));
      } else {
        var l := TreeInsert(t.left, v, nonce).value;
        AddedIsGained(t.left, v, nonce);
        GainedRefreshed(t.left, v, nonce, l, t.id);
        GainedLeft(t, v, nonce, SetParent(l, t.id));
        GainedHeight(t, v, nonce, t.(left := SetParent(l, t.id)));
      }
    } else if v > t.val {
      if TreeInsert(t.right, v, nonce).None? {
        InterruptedAdds(t.right, v, nonce);
        GainedRight(t, v, nonce, Interrupted(t.right, v, nonce));
      } else {
        var r := TreeInsert(t.right, v, nonce).value;
        AddedIsGained(t.right, v, nonce);
        GainedRefreshed(t.right, v, nonce, r, t.id);
        GainedRight(t, v, nonce, SetParent(r, t.id));
        GainedHeight(t, v, nonce, t.(right := SetParent(r, t.id)));
      }
    }
  }

  lemma AddedIsGained(t: Tree, v: int, nonce: nat)
    requires Sound(t) && nonce != 0 && nonce !in Ids(t) && TreeInsert(t, v, nonce).Some?
    ensures Gained(t, v, nonce, TreeInsert(t, v, nonce).value)
  {
    InsertAdds(t, v, nonce);
  }

  lemma GainedHeight(t: Tree, v: int, nonce: nat, r: Tree)
    requires Gained(t, v, nonce, r)
    ensures Gained(t, v, nonce, Refresh(r))
  {
  }

  lemma {:induction false} MinIsLeast(t: Tree)
    requires t.Node? && Bst(t)
    ensures forall x :: x in Vals(t) ==> Min(t) <= x
  {
    if t.left.Node? {
      MinIsLeast(t.left);
    }
  }

  /** The value at the end of the right spine. */
  function Greatest(t: Tree): int
    requires t.Node?
  {
    if t.right.Leaf? then t.val else Greatest(t.right)
  }

  lemma {:induction false} GreatestIsLargest(t: Tree)
    requires t.Node? && Bst(t)
    ensures Greatest(t) in Vals(t) && forall x :: x in Vals(t) ==> x <= Greatest(t)
  {
    if t.right.Node? {
      GreatestIsLargest(t.right);
    }
  }

  lemma SettleKeeps(t: Tree, rule: TieRule)
    requires t.Node? && Exact(t.left) && Exact(t.right)
    ensures Rearranges(t, Settle(t, rule))
  {
    RebalanceDeleteKeeps(Refresh(t), rule);
  }

  /** `r` is `t` without `v`: one nonce is given up exactly when `v` was present. */
  ghost predicate Removed(t: Tree, v: int, r: Tree) {
    && Sound(r)
    && Vals(r) == Vals(t) - {v}
    && (v !in Vals(t) ==> Ids(r) == Ids(t))
    && (v in Vals(t) ==> exists dropped :: dropped in Ids(t) && Ids(r) == Ids(t) - {dropped})
  }

  lemma RemovedLeft(t: Tree, v: int, l: Tree, res: Tree)
    requires t.Node? && Sound(t) && v < t.val && Removed(t.left, v, l)
    requires Rearranges(t.(left := SetParent(l, t.id)), res)
    ensures Removed(t, v, res)
  {
    BstSides(t, v);
    GraftLeft(t, l);
    if v in Vals(t) {
      var dropped :| dropped in Ids(t.left) && Ids(l) == Ids(t.left) - {dropped};
      assert Ids(l) + {t.id} + Ids(t.right) == Ids(t) - {dropped};
    }
  }

  lemma RemovedRight(t: Tree, v: int, r: Tree, res: Tree)
    requires t.Node? && Sound(t) && v > t.val && Removed(t.right, v, r)
    requires Rearranges(t.(right := SetParent(r, t.id)), res)
    ensures Removed(t, v, res)
  {
    BstSides(t, v);
    GraftRight(t, r);
    if v in Vals(t) {
      var dropped :| dropped in Ids(t.right) && Ids(r) == Ids(t.right) - {dropped};
      assert Ids(t.left) + {t.id} + Ids(r) == Ids(t) - {dropped};
    }
  }

  lemma RemovedBySplice(t: Tree, rule: TieRule)
    requires t.Node? && Sound(t) && (t.left.Leaf? || t.right.Leaf?)
    ensures var s := Splice(t); Removed(t, t.val, if s.Leaf? then Leaf else Settle(s, rule))
  {
    BstSides(t, t.val);
    var s := Splice(t);
    if s.Leaf? {
      assert Ids(s) == Ids(t) - {t.id};
    } else {
      var child := if t.left.Node? then t.left else t.right;
      assert Sound(child) && child.id in Ids(child) && child.id in Ids(t);
      assert Bst(s) && Vals(s) == Vals(child);
      assert Ids(s) == Ids(child) - {child.id} + {t.id} == Ids(t) - {child.id};
      assert Unshared(s);
      SettleKeeps(s, rule);
    }
  }

  lemma RemovedByMin(t: Tree, r: Tree, rule: TieRule)
    requires t.Node? && t.right.Node? && Sound(t) && Removed(t.right, Min(t.right), r)
    ensures Removed(t, t.val, Settle(t.(val := Min(t.right), right := r), rule))
  {
    var m := Min(t.right);
    BstSides(t, t.val);
    MinIsLeast(t.right);
    var u := t.(val := m, right := r);
    assert Vals(u) == Vals(t) - {t.val};
    assert m in Vals(t.right) && t.val < m;
    assert Bst(u);
    var dropped :| dropped in Ids(t.right) && Ids(r) == Ids(t.right) - {dropped};
    assert Ids(u) == Ids(t) - {dropped};
    SettleKeeps(u, rule);
  }

  /** Erasing removes exactly `v`, gives up one nonce exactly when `v` was present, and takes no other. */
  lemma {:induction false} DeleteRemoves(t: Tree, v: int, rule: TieRule)
    requires Sound(t)
    ensures Removed(t, v, TreeDelete(t, v, rule))
    decreases t
  {
    if t.Node? {
      if v < t.val {
        DeleteRemoves(t.left, v, rule);
        SettleKeeps(t.(left := SetParent(TreeDelete(t.left, v, rule), t.id)), rule);
        RemovedLeft(t, v, TreeDelete(t.left, v, rule), TreeDelete(t, v, rule));
      } else if v > t.val {
        DeleteRemoves(t.right, v, rule);
        SettleKeeps(t.(right := SetParent(TreeDelete(t.right, v, rule), t.id)), rule);
        RemovedRight(t, v, TreeDelete(t.right, v, rule), TreeDelete(t, v, rule));
      } else if t.left.Leaf? || t.right.Leaf? {
        RemovedBySplice(t, rule);
      } else {
        DeleteRemoves(t.right, Min(t.right), rule);
        RemovedByMin(t, TreeDelete(t.right, Min(t.right), rule), rule);
      }
    }
  }

  // ---------------------------------------------------------------- size

  lemma {:induction false} SizeIsCardinality(t: Tree)
    requires Bst(t)
    ensures Size(t) == |Vals(t)|
  {
    if t.Node? {
      SizeIsCardinality(t.left);
      SizeIsCardinality(t.right);
      BstSides(t, t.val);
      var low, high := Vals(t.left) + {t.val}, Vals(t.right);
      assert forall x :: x in low ==> x !in high;
      assert low * high == {} && |low + high| == |low| + |high|;
    }
  }
}
