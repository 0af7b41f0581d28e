/**
 The parent links of the tree: insert always keeps them right; erase does so
 whenever the node it splices out is a leaf, which balance guarantees, and otherwise
 exactly when the rotations above re-parent the children of the spliced node.
 */
module AvlLinks {
  import opened Wrappers
  import opened AvlTree
  import opened AvlSet
  import opened AvlBalance
  import opened AvlSketch

  /** The parent link of the node that `insertNode` returns for `t` under `p`. */
  function LinkAfterInsert(t: Tree, p: nat): nat {
    if t.Leaf? then 0 else p
  }

  /** A completed insertion leaves every parent link right, in balanced and unbalanced trees. */
  lemma {:induction false} InsertKeepsLinks(t: Tree, p: nat, v: int, nonce: nat)
    requires Linked(t, p) && TreeInsert(t, v, nonce).Some?
    ensures Linked(TreeInsert(t, v, nonce).value, LinkAfterInsert(t, p))
  {
    if t.Node? {
      if v < t.val {
        InsertKeepsLinks(t.left, t.id, v, nonce);
        var l := TreeInsert(t.left, v, nonce).value;
        SetParentKeeps(l, t.id);
        var u := Refresh(t.(left := SetParent(l, t.id)));
        assert Linked(u, p);
        RebalanceInsertKeeps(u, v);
      } else if v > t.val {
        InsertKeepsLinks(t.right, t.id, v, nonce);
        var r := TreeInsert(t.right, v, nonce).value;
        SetParentKeeps(r, t.id);
        var u := Refresh(t.(right := SetParent(r, t.id)));
        assert Linked(u, p);
        RebalanceInsertKeeps(u, v);
      }
    }
  }

  predicate IsLeafNode(t: Tree) {
    t.Node? && t.left.Leaf? && t.right.Leaf?
  }

  /** Splicing out an only child keeps the links if and only if that child is a leaf. */
  lemma SpliceLinks(t: Tree, p: nat)
    requires t.Node? && (t.left.Leaf? || t.right.Leaf?) && Linked(t, p) && Unshared(t)
    requires OnlyChild(t).Node?
    ensures Linked(Splice(t), p) <==> IsLeafNode(OnlyChild(t))
  {
    var child := OnlyChild(t);
    assert Linked(child, t.id) && child.id in Ids(child) && child.id != t.id;
    assert Linked(child.left, child.id) && Linked(child.right, child.id);
  }

  /** The node that an erase of `v` splices out, if any, is a leaf. */
  predicate SplicesLeaf(t: Tree, v: int) {
    if t.Leaf? then true
    else if v < t.val then SplicesLeaf(t.left, v)
    else if v > t.val then SplicesLeaf(t.right, v)
    else if t.left.Leaf? || t.right.Leaf? then OnlyChild(t).Leaf? || IsLeafNode(OnlyChild(t))
    else SplicesLeaf(t.right, Min(t.right))
  }

  lemma {:induction false} BalanceSplicesLeaf(t: Tree, v: int)
    requires Avl(t)
    ensures SplicesLeaf(t, v)
    decreases t
  {
    if t.Node? {
      assert Avl(t.left) && Avl(t.right);
      if v < t.val {
        BalanceSplicesLeaf(t.left, v);
      } else if v > t.val {
        BalanceSplicesLeaf(t.right, v);
      } else if t.left.Leaf? || t.right.Leaf? {
        SpliceShrinks(t);
      } else {
        BalanceSplicesLeaf(t.right, Min(t.right));
      }
    }
  }

  lemma SettleKeepsLinks(u: Tree, p: nat, rule: TieRule)
    requires u.Node? && Exact(u.left) && Exact(u.right) && Linked(u, p)
    ensures Linked(Settle(u, rule), p)
  {
    assert Linked(Refresh(u), p);
    RebalanceDeleteKeeps(Refresh(u), rule);
  }

  /** An erase that splices out a leaf keeps every parent link, under either tie rule. */
  lemma {:induction false} DeleteKeepsLinks(t: Tree, p: nat, v: int, rule: TieRule)
    requires Exact(t) && Linked(t, p) && SplicesLeaf(t, v)
    ensures Linked(TreeDelete(t, v, rule), p)
    decreases t
  {
    if t.Node? {
      assert Exact(t.left) && Exact(t.right);
      if v < t.val {
        DeleteKeepsLinks(t.left, t.id, v, rule);
        var l := TreeDelete(t.left, v, rule);
        SetParentKeeps(l, t.id);
        SettleKeepsLinks(t.(left := SetParent(l, t.id)), p, rule);
      } else if v > t.val {
        DeleteKeepsLinks(t.right, t.id, v, rule);
        var r := TreeDelete(t.right, v, rule);
        SetParentKeeps(r, t.id);
        SettleKeepsLinks(t.(right := SetParent(r, t.id)), p, rule);
      } else if t.left.Leaf? || t.right.Leaf? {
        if Splice(t).Node? {
          assert Linked(Splice(t), p);
          SettleKeepsLinks(Splice(t), p, rule);
        }
      } else {
        var m := Min(t.right);
        DeleteKeepsLinks(t.right, t.id, m, rule);
        SettleKeepsLinks(t.(val := m, right := TreeDelete(t.right, m, rule)), p, rule);
      }
    }
  }

  // ---------------------------------------------------------------- exactly when erase keeps the links

  function Head(t: Tree): set<nat> {
    if t.Leaf? then {} else {t.id}
  }

  /** The nodes whose parent link is not the nonce above them. */
  function Wrong(t: Tree, p: nat): set<nat> {
    if t.Leaf? then {}
    else (if t.parent == p then {} else {t.id}) + Wrong(t.left, t.id) + Wrong(t.right, t.id)
  }

  lemma {:induction false} LinkedIffNoneWrong(t: Tree, p: nat)
    ensures Linked(t, p) <==> Wrong(t, p) == {}
  {
    if t.Node? {
      LinkedIffNoneWrong(t.left, t.id);
      LinkedIffNoneWrong(t.right, t.id);
    }
  }

  lemma {:induction false} WrongWithin(t: Tree, p: nat)
    ensures Wrong(t, p) <= Ids(t)
  {
    if t.Node? {
      WrongWithin(t.left, t.id);
      WrongWithin(t.right, t.id);
    }
  }

  lemma WrongSetParent(t: Tree, p: nat, q: nat)
    requires Unshared(t)
    ensures Wrong(SetParent(t, q), q) == Wrong(t, p) - Head(t)
  {
    if t.Node? {
      WrongWithin(t.left, t.id);
      WrongWithin(t.right, t.id);
    }
  }

  lemma RotateRightMends(y: Tree, p: nat)
    requires y.Node? && y.left.Node? && Unshared(y)
    ensures Wrong(RotateRight(y), p)
            == (if y.parent == p then {} else {y.left.id})
               + (Wrong(y.left, y.id) + Wrong(y.right, y.id) - {y.left.id} - Head(y.left.right))
  {
    var x := y.left;
    WrongSetParent(x.right, x.id, y.id);
    WrongWithin(x.left, x.id);
    WrongWithin(x.right, x.id);
    WrongWithin(y.right, y.id);
    assert x.id in Ids(x) && Head(x.right) <= Ids(x.right);
  }

  lemma RotateLeftMends(x: Tree, p: nat)
    requires x.Node? && x.right.Node? && Unshared(x)
    ensures Wrong(RotateLeft(x), p)
            == (if x.parent == p then {} else {x.right.id})
               + (Wrong(x.left, x.id) + Wrong(x.right, x.id) - {x.right.id} - Head(x.right.left))
  {
    var y := x.right;
    WrongSetParent(y.left, y.id, x.id);
    WrongWithin(y.left, y.id);
    WrongWithin(y.right, y.id);
    WrongWithin(x.left, x.id);
    assert y.id in Ids(y) && Head(y.left) <= Ids(y.left);
  }

  /** The nodes whose parent link the rotation of an erase at `u` writes, in terms of the tree. */
  lemma RewrittenInTree(u: Tree, rule: TieRule)
    requires u.Node?
    ensures Rewritten(Drawn(u.left, 2), Drawn(u.right, 2), rule) ==
      if H(u.left) > H(u.right) + 1 && u.left.Node? then
        var (x, g) := (u.left, u.left.right);
        if H(x.left) >= H(g) || g.Leaf? then {x.id} + Head(g)
        else {x.id, g.id} + Head(g.left) + Head(g.right)
      else if H(u.right) > H(u.left) + 1 && u.right.Node? then
        var (y, g) := (u.right, u.right.left);
        if H(g) < H(y.right) || g.Leaf? || (rule.TieToSingle? && H(g) == H(y.right)) then {y.id} + Head(g)
        else {y.id, g.id} + Head(g.left) + Head(g.right)
      else {}
  {
  }

  lemma DoubleRightMends(u: Tree, p: nat)
    requires u.Node? && u.left.Node? && u.left.right.Node? && Unshared(u) && u.parent == p
    ensures var (x, g) := (u.left, u.left.right);
            Wrong(RotateRight(u.(left := RotateLeft(x))), p)
            == Wrong(u, p) - ({x.id, g.id} + Head(g.left) + Head(g.right))
  {
    hide RotateLeft, RotateRight, Unshared, Ids;
    var (x, g) := (u.left, u.left.right);
    ApartLeft(u);
    RotateLeftMends(x, u.id);
    RotateLeftKeeps(x);
    WrongWithin(u.right, u.id);
    RotateRightMends(u.(left := RotateLeft(x)), p);
    WrongWithin(g, x.id);
    WrongWithin(x.left, x.id);
  }

  /** The parts that a double rotation moves have no nonce in common. */
  lemma ApartLeft(u: Tree)
    requires u.Node? && u.left.Node? && u.left.right.Node? && Unshared(u)
    ensures var (x, g) := (u.left, u.left.right);
            && x.id !in Ids(x.left) && x.id !in Ids(g) && x.id !in Ids(u.right)
            && g.id in Ids(g) && Head(g.left) <= Ids(g) && Head(g.right) <= Ids(g)
            && Ids(g) !! Ids(x.left) && Ids(g) !! Ids(u.right) && Unshared(x) && Unshared(g)
            && RotateLeft(x).Node? && RotateLeft(x).id == g.id && RotateLeft(x).right == g.right
            && (Unshared(RotateLeft(x)) && Ids(RotateLeft(x)) == Ids(x) ==> Unshared(u.(left := RotateLeft(x))))
  {
    var (x, g) := (u.left, u.left.right);
    assert Ids(g) <= Ids(x) && x.id in Ids(x);
  }

  lemma DoubleLeftMends(u: Tree, p: nat)
    requires u.Node? && u.right.Node? && u.right.left.Node? && Unshared(u) && u.parent == p
    ensures var (y, g) := (u.right, u.right.left);
            Wrong(RotateLeft(u.(right := RotateRight(y))), p)
            == Wrong(u, p) - ({y.id, g.id} + Head(g.left) + Head(g.right))
  {
    hide RotateLeft, RotateRight, Unshared, Ids;
    var (y, g) := (u.right, u.right.left);
    ApartRight(u);
    RotateRightMends(y, u.id);
    RotateRightKeeps(y);
    WrongWithin(u.left, u.id);
    RotateLeftMends(u.(right := RotateRight(y)), p);
    WrongWithin(g, y.id);
    WrongWithin(y.right, y.id);
  }

  lemma ApartRight(u: Tree)
    requires u.Node? && u.right.Node? && u.right.left.Node? && Unshared(u)
    ensures var (y, g) := (u.right, u.right.left);
            && y.id !in Ids(y.right) && y.id !in Ids(g) && y.id !in Ids(u.left)
            && g.id in Ids(g) && Head(g.left) <= Ids(g) && Head(g.right) <= Ids(g)
            && Ids(g) !! Ids(y.right) && Ids(g) !! Ids(u.left) && Unshared(y) && Unshared(g)
            && RotateRight(y).Node? && RotateRight(y).id == g.id && RotateRight(y).left == g.left
            && (Unshared(RotateRight(y)) && Ids(RotateRight(y)) == Ids(y) ==> Unshared(u.(right := RotateRight(y))))
  {
    var (y, g) := (u.right, u.right.left);
    assert Ids(g) <= Ids(y) && y.id in Ids(y);
  }

  lemma RotationMends(u: Tree, p: nat, rule: TieRule)
    requires u.Node? && Exact(u) && Unshared(u) && u.parent == p
    ensures Wrong(RebalanceDelete(u, rule), p) == Wrong(u, p) - Rewritten(Drawn(u.left, 2), Drawn(u.right, 2), rule)
  {
    hide RotateLeft, RotateRight, Drawn, Rewritten;
    RewrittenInTree(u, rule);
    WrongWithin(u.left, u.id);
    WrongWithin(u.right, u.id);
    if H(u.left) > H(u.right) + 1 {
      if H(u.left.left) >= H(u.left.right) {
        RotateRightMends(u, p);
      } else {
        DoubleRightMends(u, p);
      }
    } else if H(u.right) > H(u.left) + 1 {
      if H(u.right.left) < H(u.right.right) || (rule.TieToSingle? && H(u.right.left) == H(u.right.right)) {
        RotateLeftMends(u, p);
      } else {
        DoubleLeftMends(u, p);
      }
    }
  }

  /**
   The nodes that an erase of `v` will leave with a wrong parent link: the children of the node
   that is copied over its parent, less those that a rotation on the way up re-parents.  It is
   read off the tree before the call.
   */
  function Strays(t: Tree, v: int, rule: TieRule): set<nat>
    decreases t, 0
  {
    if t.Leaf? then {}
    else if v < t.val then Strays(t.left, v, rule) - Rewritten(Left(t.left, v, rule), Drawn(t.right, 2), rule)
    else if v > t.val then Strays(t.right, v, rule) - Rewritten(Drawn(t.left, 2), Left(t.right, v, rule), rule)
    else if t.left.Leaf? || t.right.Leaf? then
      var c := OnlyChild(t);
      if c.Leaf? then {} else Head(c.left) + Head(c.right) - Rewritten(Drawn(c.left, 2), Drawn(c.right, 2), rule)
    else
      Strays(t.right, Min(t.right), rule) - Rewritten(Drawn(t.left, 2), Left(t.right, Min(t.right), rule), rule)
  }

  lemma SettleMends(u: Tree, p: nat, rule: TieRule)
    requires u.Node? && Exact(u.left) && Exact(u.right) && Unshared(u) && u.parent == p
    ensures Wrong(Settle(u, rule), p) == Wrong(u.left, u.id) + Wrong(u.right, u.id) - Rewritten(Drawn(u.left, 2), Drawn(u.right, 2), rule)
  {
    hide RebalanceDelete, Rewritten, Drawn;
    RotationMends(Refresh(u), p, rule);
  }

  lemma StraysBelowLeft(t: Tree, p: nat, v: int, rule: TieRule)
    requires Sound(t) && Linked(t, p) && t.Node? && v < t.val
    requires Wrong(TreeDelete(t.left, v, rule), t.id) == Strays(t.left, v, rule)
    requires TreeDelete(t.left, v, rule).Node? ==> TreeDelete(t.left, v, rule).parent == t.id
    ensures Wrong(TreeDelete(t, v, rule), p) == Strays(t, v, rule)
  {
    hide Settle, Rewritten, RebalanceDelete, Drawn;
    hide Left;
    var l := TreeDelete(t.left, v, rule);
    DeleteRemoves(t.left, v, rule);
    BstSides(t, v);
    GraftLeft(t, l);
    WrongSetParent(l, t.id, t.id);
    SettleMends(t.(left := SetParent(l, t.id)), p, rule);
    LeftIsDrawn(t.left, v, rule);
    DrawnMoved(l, t.id);
    LinkedIffNoneWrong(t.right, t.id);
    RootRight(l, t.id);
  }

  lemma StraysBelowRight(t: Tree, p: nat, v: int, rule: TieRule)
    requires Sound(t) && Linked(t, p) && t.Node? && v > t.val
    requires Wrong(TreeDelete(t.right, v, rule), t.id) == Strays(t.right, v, rule)
    requires TreeDelete(t.right, v, rule).Node? ==> TreeDelete(t.right, v, rule).parent == t.id
    ensures Wrong(TreeDelete(t, v, rule), p) == Strays(t, v, rule)
  {
    hide Settle, Rewritten, RebalanceDelete, Drawn;
    hide Left;
    var r := TreeDelete(t.right, v, rule);
    DeleteRemoves(t.right, v, rule);
    BstSides(t, v);
    GraftRight(t, r);
    WrongSetParent(r, t.id, t.id);
    SettleMends(t.(right := SetParent(r, t.id)), p, rule);
    LeftIsDrawn(t.right, v, rule);
    DrawnMoved(r, t.id);
    LinkedIffNoneWrong(t.left, t.id);
    RootRight(r, t.id);
  }

  /** A root whose own link is right is not among the wrong ones. */
  lemma RootRight(t: Tree, p: nat)
    requires Unshared(t) && (t.Node? ==> t.parent == p)
    ensures Wrong(t, p) !! Head(t)
  {
    if t.Node? {
      WrongWithin(t.left, t.id);
      WrongWithin(t.right, t.id);
    }
  }

  lemma SettleKeepsParent(u: Tree, rule: TieRule)
    requires u.Node? && Exact(u.left) && Exact(u.right)
    ensures Settle(u, rule).Node? && Settle(u, rule).parent == u.parent
  {
  }

  /** The root that an erase returns has the parent link of the root it was given. */
  lemma DeleteKeepsParent(t: Tree, v: int, rule: TieRule)
    requires Exact(t) && TreeDelete(t, v, rule).Node?
    ensures TreeDelete(t, v, rule).parent == t.parent
  {
    hide Settle;
    if v < t.val {
      SettleKeepsParent(t.(left := SetParent(TreeDelete(t.left, v, rule), t.id)), rule);
    } else if v > t.val {
      SettleKeepsParent(t.(right := SetParent(TreeDelete(t.right, v, rule), t.id)), rule);
    } else if t.left.Leaf? || t.right.Leaf? {
      SettleKeepsParent(Splice(t), rule);
    } else {
      SettleKeepsParent(t.(val := Min(t.right), right := TreeDelete(t.right, Min(t.right), rule)), rule);
    }
  }

  /** Copying a child over its parent leaves exactly its own children with a wrong link. */
  lemma WrongAfterSplice(t: Tree, p: nat)
    requires t.Node? && (t.left.Leaf? || t.right.Leaf?) && Linked(t, p) && Unshared(t) && OnlyChild(t).Node?
    ensures var (s, c) := (Splice(t), OnlyChild(t));
            s.Node? && Unshared(s) && s.parent == p
            && Wrong(s.left, s.id) + Wrong(s.right, s.id) == Head(c.left) + Head(c.right)
  {
    var c := OnlyChild(t);
    assert c.id in Ids(c) && c.id != t.id;
    WrongWhenMoved(c.left, c.id, t.id);
    WrongWhenMoved(c.right, c.id, t.id);
  }

  lemma WrongWhenMoved(t: Tree, p: nat, q: nat)
    requires Linked(t, p) && p != q
    ensures Wrong(t, q) == Head(t)
  {
    if t.Node? {
      LinkedIffNoneWrong(t.left, t.id);
      LinkedIffNoneWrong(t.right, t.id);
    }
  }

  lemma StraysAtSplice(t: Tree, p: nat, rule: TieRule)
    requires Sound(t) && Linked(t, p) && t.Node? && (t.left.Leaf? || t.right.Leaf?)
    ensures Wrong(TreeDelete(t, t.val, rule), p) == Strays(t, t.val, rule)
  {
    hide Settle, Rewritten, Drawn;
    hide Left;
    if OnlyChild(t).Node? {
      WrongAfterSplice(t, p);
      SettleMends(Splice(t), p, rule);
    }
  }

  lemma StraysAtMin(t: Tree, p: nat, rule: TieRule)
    requires Sound(t) && Linked(t, p) && t.Node? && t.left.Node? && t.right.Node?
    requires Wrong(TreeDelete(t.right, Min(t.right), rule), t.id) == Strays(t.right, Min(t.right), rule)
    ensures Wrong(TreeDelete(t, t.val, rule), p) == Strays(t, t.val, rule)
  {
    hide Settle, Rewritten, RebalanceDelete, Drawn;
    hide Left;
    var m := Min(t.right);
    DeleteRemoves(t.right, m, rule);
    SettleMends(t.(val := m, right := TreeDelete(t.right, m, rule)), p, rule);
    LeftIsDrawn(t.right, m, rule);
    LinkedIffNoneWrong(t.left, t.id);
  }

  lemma {:induction false} DeleteLeavesStrays(t: Tree, p: nat, v: int, rule: TieRule)
    requires Sound(t) && Linked(t, p)
    ensures Wrong(TreeDelete(t, v, rule), p) == Strays(t, v, rule)
    decreases t
  {
    hide TreeDelete, Strays, Wrong;
    if t.Leaf? {
      NothingStrays(v, p, rule);
    } else if v < t.val {
      DeleteLeavesStrays(t.left, t.id, v, rule);
      if TreeDelete(t.left, v, rule).Node? {
        DeleteKeepsParent(t.left, v, rule);
        RootOfDelete(t.left, v, rule);
      }
      StraysBelowLeft(t, p, v, rule);
    } else if v > t.val {
      DeleteLeavesStrays(t.right, t.id, v, rule);
      if TreeDelete(t.right, v, rule).Node? {
        DeleteKeepsParent(t.right, v, rule);
        RootOfDelete(t.right, v, rule);
      }
      StraysBelowRight(t, p, v, rule);
    } else if t.left.Leaf? || t.right.Leaf? {
      StraysAtSplice(t, p, rule);
    } else {
      DeleteLeavesStrays(t.right, t.id, Min(t.right), rule);
      StraysAtMin(t, p, rule);
    }
  }

  lemma NothingStrays(v: int, p: nat, rule: TieRule)
    ensures Wrong(TreeDelete(Leaf, v, rule), p) == Strays(Leaf, v, rule)
  {
  }

  lemma RootOfDelete(t: Tree, v: int, rule: TieRule)
    requires Exact(t) && TreeDelete(t, v, rule).Node?
    ensures t.Node?
  {
  }

  /** An erase leaves every parent link right if and only if the rotations above re-parent every child of the spliced node. */
  lemma DeleteKeepsLinksIff(t: Tree, p: nat, v: int, rule: TieRule)
    requires Sound(t) && Linked(t, p)
    ensures Linked(TreeDelete(t, v, rule), p) <==> Strays(t, v, rule) == {}
  {
    DeleteLeavesStrays(t, p, v, rule);
    LinkedIffNoneWrong(TreeDelete(t, v, rule), p);
  }

  /**
   When the root itself is spliced out this can be told from the tree: its child has no children, or
   the child's sides differ by more than one level and the lower one is empty.
   */
  lemma SpliceKeepsLinksIff(t: Tree, p: nat, rule: TieRule)
    requires Sound(t) && Linked(t, p) && t.Node? && (t.left.Leaf? || t.right.Leaf?)
    ensures Linked(TreeDelete(t, t.val, rule), p) <==>
            var c := OnlyChild(t);
            || c.Leaf? || IsLeafNode(c)
            || (c.left.Leaf? && H(c.right) > 1) || (c.right.Leaf? && H(c.left) > 1)
  {
    hide Rewritten, Linked, Drawn;
    DeleteKeepsLinksIff(t, p, t.val, rule);
    var c := OnlyChild(t);
    if c.Node? {
      SidesApart(c);
      RewrittenWithin(Splice(t), rule);
      var strays := Strays(t, t.val, rule);
      if c.left.Node? && (c.right.Node? || H(c.left) <= 1) && H(c.left) <= H(c.right) + 1 {
        assert c.left.id in strays;
      } else if c.right.Node? && (c.left.Node? || H(c.right) <= 1) {
        assert c.right.id in strays;
      }
    }
  }

  lemma RewrittenWithin(u: Tree, rule: TieRule)
    requires u.Node?
    ensures H(u.left) > H(u.right) + 1 ==> Head(u.left) <= Rewritten(Drawn(u.left, 2), Drawn(u.right, 2), rule) <= Ids(u.left)
    ensures H(u.right) > H(u.left) + 1 ==> Head(u.right) <= Rewritten(Drawn(u.left, 2), Drawn(u.right, 2), rule) <= Ids(u.right)
    ensures H(u.left) <= H(u.right) + 1 && H(u.right) <= H(u.left) + 1 ==> Rewritten(Drawn(u.left, 2), Drawn(u.right, 2), rule) == {}
  {
    hide Drawn, Rewritten;
    RewrittenInTree(u, rule);
    if u.left.Node? && u.left.right.Node? {
      assert Head(u.left.right) + Head(u.left.right.left) + Head(u.left.right.right) <= Ids(u.left.right);
    }
    if u.right.Node? && u.right.left.Node? {
      assert Head(u.right.left) + Head(u.right.left.left) + Head(u.right.left.right) <= Ids(u.right.left);
    }
  }

  lemma SidesApart(c: Tree)
    requires c.Node? && Unshared(c) && Exact(c)
    ensures Ids(c.left) !! Ids(c.right) && Head(c.left) <= Ids(c.left) && Head(c.right) <= Ids(c.right)
    ensures (c.left.Leaf? <==> H(c.left) == 0) && (c.right.Leaf? <==> H(c.right) == 0)
  {
  }
}
