/**
 The trees that the records of a persistent set spell out, and what insert and
 erase do to them.  A `Node` carries everything the source keeps for it: its
 nonce, the stored height, the stored parent nonce and its value.  `TreeInsert` and
 `TreeDelete` take the same branches as `insertNode` and `deleteNode`; they touch the
 stored heights and parents only where the source does.
 */
module AvlTree {
  import opened Wrappers

  datatype Tree =
    | Leaf
    | Node(id: nat, height: nat, parent: nat, left: Tree, val: int, right: Tree)

  /** Which rotation an erase picks when the right side is too high and its root is even. */
  datatype TieRule =
    | AsWritten      // the source: an even right child takes the double rotation
    | TieToSingle    // the textbook rule: an even right child takes the single rotation

  // ---------------------------------------------------------------- observations

  function Root(t: Tree): nat {
    if t.Leaf? then 0 else t.id
  }

  function H(t: Tree): nat {
    if t.Leaf? then 0 else t.height
  }

  function Vals(t: Tree): set<int> {
    if t.Leaf? then {} else Vals(t.left) + {t.val} + Vals(t.right)
  }

  function Ids(t: Tree): set<nat> {
    if t.Leaf? then {} else Ids(t.left) + {t.id} + Ids(t.right)
  }

  function Size(t: Tree): nat {
    if t.Leaf? then 0 else Size(t.left) + 1 + Size(t.right)
  }

  /** Every stored height is the height. */
  ghost predicate Exact(t: Tree) {
    if t.Leaf? then true
    else if t.height != 1 + Max(H(t.left), H(t.right)) then false
    else if Exact(t.left) then Exact(t.right)
    else false
  }

  ghost predicate Bst(t: Tree) {
    t.Node? ==>
      && (forall x :: x in Vals(t.left) ==> x < t.val)
      && (forall x :: x in Vals(t.right) ==> t.val < x)
      && Bst(t.left) && Bst(t.right)
  }

  /** No nonce is used twice and none is 0, so the records form a tree and not a graph. */
  ghost predicate Unshared(t: Tree) {
    t.Node? ==>
      && t.id != 0 && t.id !in Ids(t.left) && t.id !in Ids(t.right)
      && Ids(t.left) !! Ids(t.right)
      && Unshared(t.left) && Unshared(t.right)
  }

  ghost predicate Balanced(t: Tree) {
    t.Node? ==>
      H(t.left) <= H(t.right) + 1 && H(t.right) <= H(t.left) + 1 && Balanced(t.left) && Balanced(t.right)
  }

  /** The root's parent link is `p` and every other parent link names the actual parent. */
  ghost predicate Linked(t: Tree, p: nat) {
    t.Node? ==>
      t.parent == p && Linked(t.left, t.id) && Linked(t.right, t.id)
  }

  /** What every tree the code builds satisfies, balanced or not. */
  ghost predicate Sound(t: Tree) {
    Exact(t) && Bst(t) && Unshared(t)
  }

  // ---------------------------------------------------------------- the algorithm

  function SetParent(t: Tree, p: nat): (r: Tree)
    ensures Exact(t) ==> Exact(r)
    ensures H(r) == H(t)
  {
    if t.Leaf? then t else t.(parent := p)
  }

  function Refresh(t: Tree): Tree
    requires t.Node?
  {
    t.(height := 1 + Max(H(t.left), H(t.right)))
  }

  function RotateRight(y: Tree): (r: Tree)
    requires y.Node? && y.left.Node?
    ensures Exact(y.left) && Exact(y.right) ==> Exact(r)
  {
    var x := y.left;
    var lowered := Refresh(y.(parent := x.id, left := SetParent(x.right, y.id)));
    assert Exact(x) ==> Exact(x.right);
    assert Exact(x) && Exact(y.right) ==> Exact(lowered);
    Refresh(x.(parent := y.parent, right := lowered))
  }

  function RotateLeft(x: Tree): (r: Tree)
    requires x.Node? && x.right.Node?
    ensures Exact(x.left) && Exact(x.right) ==> Exact(r)
  {
    var y := x.right;
    var lowered := Refresh(x.(parent := y.id, right := SetParent(y.left, x.id)));
    assert Exact(y) ==> Exact(y.left);
    assert Exact(y) && Exact(x.left) ==> Exact(lowered);
    Refresh(y.(parent := x.parent, left := lowered))
  }

  /** The rotation at the end of an insertion of `v`; None when it looks up nonce 0. */
  function RebalanceInsert(t: Tree, v: int): (r: Option<Tree>)
    requires t.Node?
    ensures r.Some? && Exact(t) ==> Exact(r.value)
  {
    assert Exact(t) ==> Exact(t.left) && Exact(t.right);
    if H(t.left) > H(t.right) + 1 then
      if v < t.left.val then Some(RotateRight(t))
      else if v > t.left.val then
        if t.left.right.Leaf? then None
        else Some(RotateRight(t.(left := RotateLeft(t.left))))
      else Some(t)
    else if H(t.right) > H(t.left) + 1 then
      if v > t.right.val then Some(RotateLeft(t))
      else if v < t.right.val then
        if t.right.left.Leaf? then None
        else Some(RotateLeft(t.(right := RotateRight(t.right))))
      else Some(t)
    else Some(t)
  }

  /** Insert `v`; a new node takes the given nonce.  None stands for "Node not found". */
  function TreeInsert(t: Tree, v: int, nonce: nat): (r: Option<Tree>)
    ensures r.Some? && Exact(t) ==> Exact(r.value)
  {
    if t.Leaf? then Some(Node(nonce, 1, 0, Leaf, v, Leaf))
    else if v < t.val then
      var l := TreeInsert(t.left, v, nonce);
      if l.None? then None
      else RebalanceInsert(Refresh(t.(left := SetParent(l.value, t.id))), v)
    else if v > t.val then
      var r := TreeInsert(t.right, v, nonce);
      if r.None? then None
      else RebalanceInsert(Refresh(t.(right := SetParent(r.value, t.id))), v)
    else Some(t)
  }

  function Min(t: Tree): (m: int)
    requires t.Node?
    ensures m in Vals(t)
  {
    if t.left.Leaf? then t.val else Min(t.left)
  }

  function RebalanceDelete(t: Tree, rule: TieRule): (r: Tree)
    requires t.Node? && Exact(t)
    ensures Exact(r)
  {
    assert Exact(t.left) && Exact(t.right);
    if H(t.left) > H(t.right) + 1 then
      if H(t.left.left) >= H(t.left.right) then RotateRight(t)
      else RotateRight(t.(left := RotateLeft(t.left)))
    else if H(t.right) > H(t.left) + 1 then
      if H(t.right.left) < H(t.right.right) then RotateLeft(t)
      else if rule.TieToSingle? && H(t.right.left) == H(t.right.right) then RotateLeft(t)
      else RotateLeft(t.(right := RotateRight(t.right)))
    else t
  }

  function OnlyChild(t: Tree): Tree
    requires t.Node? && (t.left.Leaf? || t.right.Leaf?)
  {
    if t.left.Node? then t.left else t.right
  }

  /** The node that takes over when `t`, with at most one child, loses its own value. */
  function Splice(t: Tree): (r: Tree)
    requires t.Node? && (t.left.Leaf? || t.right.Leaf?)
    ensures Exact(t) ==> Exact(r)
  {
    var child := OnlyChild(t);
    if child.Leaf? then Leaf
    else
      assert Exact(t) ==> Exact(child);
      t.(height := child.height, left := child.left, val := child.val, right := child.right)
  }

  function TreeDelete(t: Tree, v: int, rule: TieRule): (r: Tree)
    requires Exact(t)
    ensures Exact(r)
    decreases t, 0
  {
    if t.Leaf? then Leaf
    else if v < t.val then
      Settle(t.(left := SetParent(TreeDelete(t.left, v, rule), t.id)), rule)
    else if v > t.val then
      Settle(t.(right := SetParent(TreeDelete(t.right, v, rule), t.id)), rule)
    else if t.left.Leaf? || t.right.Leaf? then
      var s := Splice(t);
      assert Exact(s);
      if s.Leaf? then Leaf else Settle(s, rule)
    else
      var m := Min(t.right);
      Settle(t.(val := m, right := TreeDelete(t.right, m, rule)), rule)
  }

  /** Recompute the height of the root and rotate if it leans. */
  function Settle(t: Tree, rule: TieRule): (r: Tree)
    requires t.Node? && Exact(t.left) && Exact(t.right)
    ensures Exact(r)
  {
    RebalanceDelete(Refresh(t), rule)
  }
}
