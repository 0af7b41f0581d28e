/**
 When an insertion throws, read off the tree before the call.  All that an insertion
 looks at is the heights beside the search path of the new value, and, where a rotation
 lifts a child of a sibling, the heights below that sibling.
 */
module AvlPath {
  import opened Wrappers
  import opened AvlTree
  import opened AvlSet

  /**
   A search path: at each node the side taken and the height of the other side, at its
   end the heights below the node that was found or will be made.
   */
  datatype Path =
    | End(l: nat, r: nat)
    | GoLeft(off: nat, rest: Path)
    | GoRight(off: nat, rest: Path)

  function Height(p: Path): nat {
    match p
    case End(l, r) => Max(l, r) + 1
    case GoLeft(off, rest) => Max(Height(rest), off) + 1
    case GoRight(off, rest) => Max(off, Height(rest)) + 1
  }

  /** The path of `v` in a tree; where the tree ends, `v` would be a new node. */
  function Along(t: Tree, v: int): Path {
    if t.Leaf? then End(0, 0)
    else if v == t.val then End(H(t.left), H(t.right))
    else if v < t.val then GoLeft(H(t.right), Along(t.left, v))
    else GoRight(H(t.left), Along(t.right, v))
  }

  /** From the path below the left child to the path below its parent; `None` when a child to lift is missing. */
  function RiseLeft(p: Path, sibling: Tree): Option<Path> {
    if Height(p) > H(sibling) + 1 then
      match p
      case End(_, _) => Some(GoLeft(H(sibling), p))
      case GoLeft(off, q) => Some(GoLeft(Max(off, H(sibling)) + 1, q))
      case GoRight(off, End(l, r)) => Some(End(Max(off, l) + 1, Max(r, H(sibling)) + 1))
      case GoRight(off, GoLeft(o, q)) => Some(GoLeft(Max(o, H(sibling)) + 1, GoRight(off, q)))
      case GoRight(off, GoRight(o, q)) => Some(GoRight(Max(off, o) + 1, GoLeft(H(sibling), q)))
    else if H(sibling) > Height(p) + 1 then
      if sibling.Leaf? || sibling.left.Leaf? then None
      else Some(GoLeft(Max(H(sibling.left.right), H(sibling.right)) + 1, GoLeft(H(sibling.left.left), p)))
    else Some(GoLeft(H(sibling), p))
  }

  function RiseRight(p: Path, sibling: Tree): Option<Path> {
    if H(sibling) > Height(p) + 1 then
      if sibling.Leaf? || sibling.right.Leaf? then None
      else Some(GoRight(Max(H(sibling.left), H(sibling.right.left)) + 1, GoRight(H(sibling.right.right), p)))
    else if Height(p) > H(sibling) + 1 then
      match p
      case End(_, _) => Some(GoRight(H(sibling), p))
      case GoRight(off, q) => Some(GoRight(Max(H(sibling), off) + 1, q))
      case GoLeft(off, End(l, r)) => Some(End(Max(H(sibling), l) + 1, Max(r, off) + 1))
      case GoLeft(off, GoRight(o, q)) => Some(GoRight(Max(H(sibling), o) + 1, GoLeft(off, q)))
      case GoLeft(off, GoLeft(o, q)) => Some(GoLeft(Max(o, off) + 1, GoRight(H(sibling), q)))
    else Some(GoRight(H(sibling), p))
  }

  /** The path of `v` after its insertion, computed from the tree before it. */
  function After(t: Tree, v: int): Option<Path> {
    if t.Leaf? then Some(End(0, 0))
    else if v == t.val then Some(End(H(t.left), H(t.right)))
    else if v < t.val then
      var p := After(t.left, v);
      if p.None? then None else RiseLeft(p.value, t.right)
    else
      var p := After(t.right, v);
      if p.None? then None else RiseRight(p.value, t.left)
  }

  /** Inserting `v` will meet a missing node. */
  predicate Blocked(t: Tree, v: int) {
    After(t, v).None?
  }

  lemma {:induction false} AlongHeight(t: Tree, v: int)
    requires Exact(t) && Bst(t) && v in Vals(t)
    ensures Height(Along(t, v)) == H(t)
  {
    BstSides(t, v);
    if v < t.val {
      AlongHeight(t.left, v);
    } else if v > t.val {
      AlongHeight(t.right, v);
    }
  }

  lemma AlongSetParent(t: Tree, v: int, p: nat)
    ensures Along(SetParent(t, p), v) == Along(t, v) && H(SetParent(t, p)) == H(t)
  {
  }

  /** Where a right rotation leads the search. */
  lemma AlongRotateRight(y: Tree, v: int)
    requires y.Node? && y.left.Node? && y.left.val < y.val
    ensures var (x, r) := (y.left, RotateRight(y));
            && r.Node? && r.val == x.val && r.left == x.left && r.right.Node? && r.right.val == y.val
            && H(r.left) == H(x.left) && H(r.right.left) == H(x.right) && r.right.right == y.right
            && H(r.right) == Max(H(x.right), H(y.right)) + 1
            && Along(r.right.left, v) == Along(x.right, v)
  {
    AlongSetParent(y.left.right, v, y.id);
  }

  lemma AlongRotateLeft(x: Tree, v: int)
    requires x.Node? && x.right.Node? && x.val < x.right.val
    ensures var (y, r) := (x.right, RotateLeft(x));
            && r.Node? && r.val == y.val && r.right == y.right && r.left.Node? && r.left.val == x.val
            && H(r.right) == H(y.right) && H(r.left.right) == H(y.left) && r.left.left == x.left
            && H(r.left) == Max(H(x.left), H(y.left)) + 1
            && Along(r.left.right, v) == Along(y.left, v)
  {
    AlongSetParent(x.right.left, v, x.id);
  }

  /** The rebalancing of a node whose left side now holds `v`. */
  lemma RisesLeft(u: Tree, v: int)
    requires Exact(u) && Bst(u) && u.Node? && v < u.val && v in Vals(u.left)
    ensures RebalanceInsert(u, v).None? <==> RiseLeft(Along(u.left, v), u.right).None?
    ensures RebalanceInsert(u, v).Some? ==>
              Along(RebalanceInsert(u, v).value, v) == RiseLeft(Along(u.left, v), u.right).value
  {
    hide RotateRight, RotateLeft;
    AlongHeight(u.left, v);
    BstSides(u.left, v);
    if H(u.left) > H(u.right) + 1 {
      InnerValues(u);
      if v < u.left.val {
        AlongRotateRight(u, v);
      } else if v > u.left.val {
        AlongRotateLeft(u.left, v);
        AlongRotateRight(u.(left := RotateLeft(u.left)), v);
      }
    } else if H(u.right) > H(u.left) + 1 {
      InnerValues(u);
      if u.right.left.Node? {
        AlongRotateRight(u.right, v);
        AlongRotateLeft(u.(right := RotateRight(u.right)), v);
      }
    }
  }

  lemma RisesRight(u: Tree, v: int)
    requires Exact(u) && Bst(u) && u.Node? && v > u.val && v in Vals(u.right)
    ensures RebalanceInsert(u, v).None? <==> RiseRight(Along(u.right, v), u.left).None?
    ensures RebalanceInsert(u, v).Some? ==>
              Along(RebalanceInsert(u, v).value, v) == RiseRight(Along(u.right, v), u.left).value
  {
    hide RotateRight, RotateLeft;
    AlongHeight(u.right, v);
    BstSides(u.right, v);
    if H(u.left) > H(u.right) + 1 {
      InnerValues(u);
      if u.left.right.Node? {
        AlongRotateLeft(u.left, v);
        AlongRotateRight(u.(left := RotateLeft(u.left)), v);
      }
    } else if H(u.right) > H(u.left) + 1 {
      InnerValues(u);
      if v > u.right.val {
        AlongRotateLeft(u, v);
      } else if v < u.right.val {
        DoubleOnRight(u, v);
      }
    }
  }

  /** Where a double rotation leads the search. */
  lemma DoubleOnRight(u: Tree, v: int)
    requires u.Node? && u.right.Node? && u.val < v < u.right.val
    requires u.right.left.Node? ==> u.val < u.right.left.val < u.right.val
    requires Height(Along(u.right, v)) == H(u.right) > H(u.left) + 1 && v in Vals(u.right.left)
    ensures RebalanceInsert(u, v).Some? && RiseRight(Along(u.right, v), u.left).Some?
    ensures Along(RebalanceInsert(u, v).value, v) == RiseRight(Along(u.right, v), u.left).value
  {
    hide RotateRight, RotateLeft;
    AlongRotateRight(u.right, v);
    AlongRotateLeft(u.(right := RotateRight(u.right)), v);
  }

  /** The values of the nodes that a rotation moves are in order. */
  lemma InnerValues(u: Tree)
    requires u.Node? && Bst(u)
    ensures u.left.Node? ==> u.left.val < u.val
    ensures u.right.Node? ==> u.val < u.right.val
    ensures u.left.Node? && u.left.right.Node? ==> u.left.val < u.left.right.val < u.val
    ensures u.right.Node? && u.right.left.Node? ==> u.val < u.right.left.val < u.right.val
  {
    assert u.left.Node? ==> u.left.val in Vals(u.left);
    assert u.right.Node? ==> u.right.val in Vals(u.right);
    assert u.left.Node? && u.left.right.Node? ==>
        u.left.right.val in Vals(u.left.right) && u.left.right.val in Vals(u.left);
    assert u.right.Node? && u.right.left.Node? ==>
        u.right.left.val in Vals(u.right.left) && u.right.left.val in Vals(u.right);
  }

  /** An insertion throws exactly when the heights along the path say so, and otherwise leaves the path they say. */
  lemma {:induction false} InsertFollowsPath(t: Tree, v: int, nonce: nat)
    requires Sound(t) && nonce != 0 && nonce !in Ids(t)
    ensures TreeInsert(t, v, nonce).None? <==> Blocked(t, v)
    ensures TreeInsert(t, v, nonce).Some? ==> Along(TreeInsert(t, v, nonce).value, v) == After(t, v).value
  {
    hide RebalanceInsert, RiseLeft, RiseRight;
    if t.Node? && v < t.val {
      InsertFollowsPath(t.left, v, nonce);
      if TreeInsert(t.left, v, nonce).Some? {
        var l := TreeInsert(t.left, v, nonce).value;
        InsertAdds(t.left, v, nonce);
        GraftLeft(t, l);
        AlongSetParent(l, v, t.id);
        RisesLeft(Refresh(t.(left := SetParent(l, t.id))), v);
      }
    } else if t.Node? && v > t.val {
      InsertFollowsPath(t.right, v, nonce);
      if TreeInsert(t.right, v, nonce).Some? {
        var r := TreeInsert(t.right, v, nonce).value;
        InsertAdds(t.right, v, nonce);
        GraftRight(t, r);
        AlongSetParent(r, v, t.id);
        RisesRight(Refresh(t.(right := SetParent(r, t.id))), v);
      }
    }
  }
}
