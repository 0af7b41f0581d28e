/**
 The order in which a set is traversed: the nonces of a tree from its least value to
 its greatest, and how the neighbours of a node are found by climbing parent links.
 */
module AvlOrder {
  import opened Wrappers
  import opened AvlTree
  import opened AvlSet

  /** The nonces of `t`, in the order of their values. */
  function Order(t: Tree): seq<nat> {
    if t.Leaf? then [] else Order(t.left) + [t.id] + Order(t.right)
  }

  /** The values of `t`, in order. */
  function Values(t: Tree): seq<int> {
    if t.Leaf? then [] else Values(t.left) + [t.val] + Values(t.right)
  }

  ghost predicate Increasing(s: seq<int>) {
    forall i, j :: 0 <= i < j < |s| ==> s[i] < s[j]
  }

  ghost predicate Distinct(s: seq<nat>) {
    forall i, j :: 0 <= i < j < |s| ==> s[i] != s[j]
  }

  /** The traversal meets every node and every value of the tree. */
  lemma {:induction false} OrderCovers(t: Tree)
    ensures |Order(t)| == |Values(t)| == Size(t)
    ensures forall id :: id in Order(t) <==> id in Ids(t)
    ensures forall v :: v in Values(t) <==> v in Vals(t)
  {
    if t.Node? {
      OrderCovers(t.left);
      OrderCovers(t.right);
    }
  }

  /** The traversal of a search tree over unshared nonces meets each node once and its values in strictly increasing order. */
  lemma {:induction false} OrderIncreases(t: Tree)
    requires Bst(t) && Unshared(t)
    ensures Increasing(Values(t)) && Distinct(Order(t))
  {
    if t.Node? {
      OrderIncreases(t.left);
      OrderIncreases(t.right);
      OrderCovers(t.left);
      OrderCovers(t.right);
      IncreasingJoin(Values(t.left), t.val, Values(t.right));
      DistinctJoin(Order(t.left), t.id, Order(t.right));
    }
  }

  lemma IncreasingJoin(a: seq<int>, x: int, b: seq<int>)
    requires Increasing(a) && Increasing(b)
    requires (forall v :: v in a ==> v < x) && (forall v :: v in b ==> x < v)
    ensures Increasing(a + [x] + b)
  {
    var s := a + [x] + b;
    forall i, j | 0 <= i < j < |s| ensures s[i] < s[j] {
      if i < |a| { assert s[i] in a; }
      if j > |a| { assert s[j] in b; }
    }
  }

  lemma DistinctJoin(a: seq<nat>, x: nat, b: seq<nat>)
    requires Distinct(a) && Distinct(b) && x !in a && x !in b
    requires forall v :: v in a ==> v !in b
    ensures Distinct(a + [x] + b)
  {
    var s := a + [x] + b;
    forall i, j | 0 <= i < j < |s| ensures s[i] != s[j] {
      if i < |a| { assert s[i] in a; }
      if j > |a| { assert s[j] in b; }
    }
  }

  // ---------------------------------------------------------------- subtrees

  /** The subtree of `t` whose root is `id`. */
  function At(t: Tree, id: nat): (s: Tree)
    requires id in Ids(t)
    ensures s.Node? && s.id == id
  {
    if t.id == id then t else if id in Ids(t.left) then At(t.left, id) else At(t.right, id)
  }

  /** The place in the traversal of `t` where that of the subtree at `id` starts. */
  function Start(t: Tree, id: nat): nat
    requires id in Ids(t)
  {
    if t.id == id then 0
    else if id in Ids(t.left) then Start(t.left, id)
    else Size(t.left) + 1 + Start(t.right, id)
  }

  /** The place of the node `id` itself. */
  function Place(t: Tree, id: nat): nat
    requires id in Ids(t)
  {
    Start(t, id) + Size(At(t, id).left)
  }

  /** The node `id` is met at its place. */
  lemma {:induction false} PlaceHolds(t: Tree, id: nat)
    requires Unshared(t) && id in Ids(t)
    ensures Place(t, id) < |Order(t)| && Order(t)[Place(t, id)] == id
  {
    OrderCovers(t.left);
    OrderCovers(t.right);
    if t.id != id {
      if id in Ids(t.left) {
        PlaceHolds(t.left, id);
      } else {
        PlaceHolds(t.right, id);
      }
    }
  }

  lemma {:induction false} AtUnshared(t: Tree, id: nat)
    requires Unshared(t) && id in Ids(t)
    ensures Unshared(At(t, id)) && Ids(At(t, id)) <= Ids(t)
  {
    if t.id != id {
      if id in Ids(t.left) {
        AtUnshared(t.left, id);
      } else {
        AtUnshared(t.right, id);
      }
    }
  }

  /** The children of a node lie on either side of it. */
  lemma {:induction false} Children(t: Tree, id: nat)
    requires Unshared(t) && id in Ids(t)
    ensures var s := At(t, id);
      && (s.left.Node? ==> s.left.id in Ids(t) && At(t, s.left.id) == s.left && Start(t, s.left.id) == Start(t, id))
      && (s.right.Node? ==> s.right.id in Ids(t) && At(t, s.right.id) == s.right
                            && Start(t, s.right.id) == Place(t, id) + 1)
  {
    if t.id != id {
      if id in Ids(t.left) {
        Children(t.left, id);
      } else {
        Children(t.right, id);
      }
    }
  }

  /** Climbing: in a linked tree the parent link of any node but the root leads to the node above it. */
  lemma {:induction false} Climb(t: Tree, p: nat, id: nat)
    requires Unshared(t) && Linked(t, p) && id in Ids(t)
    ensures id == t.id ==> At(t, id).parent == p
    ensures id != t.id ==>
      var up := At(t, id).parent;
      && up in Ids(t)
      && Size(At(t, id)) < Size(At(t, up))
      && (At(t, up).left == At(t, id) || At(t, up).right == At(t, id))
  {
    if t.id != id {
      if id in Ids(t.left) {
        Climb(t.left, t.id, id);
        if id != t.left.id {
          assert At(t.left, id).parent in Ids(t.left);
        }
      } else {
        Climb(t.right, t.id, id);
        if id != t.right.id {
          assert At(t.right, id).parent in Ids(t.right);
        }
      }
    }
  }

  /** The value of a node is at the place of the node. */
  lemma {:induction false} ValueAtPlace(t: Tree, id: nat)
    requires Unshared(t) && id in Ids(t)
    ensures Place(t, id) < |Values(t)| && Values(t)[Place(t, id)] == At(t, id).val
  {
    OrderCovers(t.left);
    OrderCovers(t.right);
    if t.id != id {
      if id in Ids(t.left) {
        ValueAtPlace(t.left, id);
      } else {
        ValueAtPlace(t.right, id);
      }
    }
  }

  lemma {:induction false} SmallerThanWhole(t: Tree, id: nat)
    requires id in Ids(t)
    ensures Size(At(t, id)) <= Size(t)
  {
    if t.id != id {
      if id in Ids(t.left) {
        SmallerThanWhole(t.left, id);
      } else {
        SmallerThanWhole(t.right, id);
      }
    }
  }

  lemma {:induction false} WithinWhole(t: Tree, id: nat)
    requires id in Ids(t)
    ensures Start(t, id) + Size(At(t, id)) <= Size(t) == |Order(t)|
  {
    OrderCovers(t);
    if t.id != id {
      if id in Ids(t.left) {
        WithinWhole(t.left, id);
      } else {
        WithinWhole(t.right, id);
      }
    }
  }

  /** Only the root has no node above it. */
  lemma AtRoot(t: Tree, id: nat)
    requires Unshared(t) && Linked(t, 0) && id in Ids(t) && At(t, id).parent == 0
    ensures id == t.id && Start(t, id) == 0 && Size(At(t, id)) == |Order(t)|
  {
    Climb(t, 0, id);
    NonZero(t);
    OrderCovers(t);
  }

  /** The two ends of the traversal of a non-empty tree. */
  function First(t: Tree): nat
    requires t.Node?
  {
    if t.left.Leaf? then t.id else First(t.left)
  }

  function Last(t: Tree): nat
    requires t.Node?
  {
    if t.right.Leaf? then t.id else Last(t.right)
  }

  lemma {:induction false} EndsOfOrder(t: Tree)
    requires t.Node?
    ensures |Order(t)| > 0 && Order(t)[0] == First(t) && Order(t)[|Order(t)| - 1] == Last(t)
    ensures |Values(t)| > 0
  {
    if t.left.Node? {
      EndsOfOrder(t.left);
    }
    if t.right.Node? {
      EndsOfOrder(t.right);
    }
  }

  // ---------------------------------------------------------------- walks

  /** The nonce that follows `id` in the traversal, or 0 at the end. */
  function Next(t: Tree, id: nat): nat
    requires id in Ids(t)
  {
    var k := Place(t, id) + 1;
    if k < |Order(t)| then Order(t)[k] else 0
  }

  /** The nonce that precedes `id`, or 0 at the start. */
  function Prev(t: Tree, id: nat): nat
    requires id in Ids(t)
  {
    var k := Place(t, id);
    if 0 < k <= |Order(t)| then Order(t)[k - 1] else 0
  }

  lemma PlaceOfOrder(t: Tree, k: nat)
    requires Bst(t) && Unshared(t) && k < |Order(t)|
    ensures Order(t)[k] in Ids(t) && Order(t)[k] != 0 && Place(t, Order(t)[k]) == k
  {
    OrderCovers(t);
    OrderIncreases(t);
    assert Order(t)[k] in Order(t);
    PlaceHolds(t, Order(t)[k]);
    NonZero(t);
  }

  lemma {:induction false} NonZero(t: Tree)
    requires Unshared(t)
    ensures 0 !in Ids(t)
  {
    if t.Node? {
      NonZero(t.left);
      NonZero(t.right);
    }
  }

  /** Stepping forward and back, away from the ends, comes back to the same node; and the other way round. */
  lemma NextPrevUndo(t: Tree, id: nat)
    requires Bst(t) && Unshared(t) && id in Ids(t)
    ensures Next(t, id) != 0 ==>
      var n := Next(t, id);
      n in Ids(t) && Prev(t, n) == id
    ensures Prev(t, id) != 0 ==> Prev(t, id) in Ids(t) && Next(t, Prev(t, id)) == id
  {
    hide Order, Ids, Place, Bst, Unshared, Vals;
    PlaceHolds(t, id);
    var k := Place(t, id);
    if k + 1 < |Order(t)| {
      PlaceOfOrder(t, k + 1);
    }
    if k > 0 {
      PlaceOfOrder(t, k - 1);
    }
  }

  /** The nonces met by stepping forward from `id`, at most `fuel` of them, up to nonce 0. */
  function WalkForward(t: Tree, id: nat, fuel: nat): seq<nat>
    decreases fuel
  {
    if fuel == 0 || id !in Ids(t) then []
    else [id] + WalkForward(t, Next(t, id), fuel - 1)
  }

  /** The walk from the node at place `k` meets the rest of the traversal, whatever the fuel beyond it. */
  lemma {:induction false} WalkFrom(t: Tree, k: nat, fuel: nat)
    requires Bst(t) && Unshared(t) && k <= |Order(t)| && fuel >= |Order(t)| - k
    ensures WalkForward(t, if k < |Order(t)| then Order(t)[k] else 0, fuel) == Order(t)[k..]
    decreases fuel
  {
    if k < |Order(t)| {
      PlaceOfOrder(t, k);
      WalkFrom(t, k + 1, fuel - 1);
    } else {
      NonZero(t);
    }
  }

  /** The nonces met by stepping back from `id`, at most `fuel` of them, up to nonce 0. */
  function WalkBackward(t: Tree, id: nat, fuel: nat): seq<nat>
    decreases fuel
  {
    if fuel == 0 || id !in Ids(t) then []
    else [id] + WalkBackward(t, Prev(t, id), fuel - 1)
  }

  function Reversed(s: seq<nat>): seq<nat> {
    if s == [] then [] else [s[|s| - 1]] + Reversed(s[..|s| - 1])
  }

  /** The mirror image: the walk back from the node before place `k` meets the start of the traversal, last node first. */
  lemma {:induction false} WalkBackFrom(t: Tree, k: nat, fuel: nat)
    requires Bst(t) && Unshared(t) && k <= |Order(t)| && fuel >= k
    ensures WalkBackward(t, if k > 0 then Order(t)[k - 1] else 0, fuel) == Reversed(Order(t)[..k])
    decreases fuel
  {
    if k > 0 {
      PlaceOfOrder(t, k - 1);
      WalkBackFrom(t, k - 1, fuel - 1);
      assert Order(t)[..k][..k - 1] == Order(t)[..k - 1];
    } else {
      NonZero(t);
    }
  }
}
