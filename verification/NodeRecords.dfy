/**
 The node records of a set: how records named by nonces spell out a tree, and what
 each write of the algorithm does to the tree they spell.
 */
module NodeRecords {
  import opened Wrappers
  import opened AvlTree
  import opened AvlSet
  import opened AvlLinks
  import opened AvlRuns
  import opened AvlOrder

  datatype Status = Unchanged | Changed | Erased

  /** A stored node.  A link of 0 is no link. */
  datatype Record = Record(left: nat, right: nat, height: nat, parent: nat, val: int, status: Status)

  type Records = map<nat, Record>

  /** Nonces and sizes are 64-bit words. */
  const MAX_NONCE: nat := 0xFFFF_FFFF_FFFF_FFFF

  // ---------------------------------------------------------------- records and trees

  /** The records `m`, followed from the root of `t`, spell out `t`, and none of them is erased. */
  ghost predicate Spells(m: Records, t: Tree) {
    t.Node? ==>
      && t.id in m && !m[t.id].status.Erased?
      && m[t.id] == Record(Root(t.left), Root(t.right), t.height, t.parent, t.val, m[t.id].status)
      && Spells(m, t.left) && Spells(m, t.right)
  }

  /** The height that the record of `id` stores, as `getHeight` reads it. */
  function HeightIn(m: Records, id: nat): nat
    requires id == 0 || id in m
  {
    if id == 0 then 0 else m[id].height
  }

  lemma HeightInSpelled(m: Records, t: Tree)
    requires Spells(m, t) && Unshared(t)
    ensures Root(t) == 0 || Root(t) in m
    ensures HeightIn(m, Root(t)) == H(t)
  {
  }

  lemma {:induction false} SpellsFrame(m: Records, m': Records, t: Tree)
    requires Spells(m, t)
    requires forall id :: id in Ids(t) && id in m ==> id in m' && m'[id] == m[id]
    ensures Spells(m', t)
  {
    if t.Node? {
      SpellsFrame(m, m', t.left);
      SpellsFrame(m, m', t.right);
    }
  }

  lemma {:induction false} SpellsIds(m: Records, t: Tree)
    requires Spells(m, t)
    ensures Ids(t) <= m.Keys
    ensures forall id :: id in Ids(t) ==> !m[id].status.Erased?
  {
    if t.Node? {
      SpellsIds(m, t.left);
      SpellsIds(m, t.right);
    }
  }

  /** The two maps hold the same records, except perhaps at the nonces `ids`. */
  ghost predicate Same(m: Records, m': Records, ids: set<nat>) {
    forall id :: id in m && id !in ids ==> id in m' && m'[id] == m[id]
  }

  /** Three changes in a row, inside `ids` or at a nonce that is new. */
  lemma SameThrough(m: Records, m1: Records, m2: Records, m3: Records,
                    a: set<nat>, b: set<nat>, c: set<nat>, id: nat, ids: set<nat>, nonce: nat)
    requires Same(m, m1, a) && Same(m1, m2, b + {id}) && Same(m2, m3, c) && nonce !in m
    requires a <= ids && b <= a + {nonce} && c <= ids + {nonce} && id in ids
    ensures Same(m, m3, ids)
  {
    forall k | k in m && k !in ids ensures k in m3 && m3[k] == m[k] {
      assert k != nonce && k !in a && k !in b + {id} && k !in c;
    }
  }

  /** Nonces in use are not 0 and have been given out. */
  ghost predicate Numbers(m: Records, n: nat) {
    forall id :: id in m ==> 0 < id <= n
  }

  lemma NumbersKeys(m: Records, m': Records, n: nat)
    requires m'.Keys == m.Keys && Numbers(m, n)
    ensures Numbers(m', n)
  {
    forall id | id in m' ensures 0 < id <= n {
      assert id in m.Keys;
    }
  }

  /** What the record of a root says. */
  lemma SpellsTop(m: Records, t: Tree)
    requires t.Node? && Spells(m, t) && Sound(t)
    ensures t.id in m && m[t.id].left == Root(t.left) && m[t.id].right == Root(t.right) && m[t.id].val == t.val
    ensures Spells(m, t.left) && Spells(m, t.right) && Sound(t.left) && Sound(t.right)
    ensures t.id in Ids(t) && Ids(t.left) <= Ids(t) && Ids(t.right) <= Ids(t) && Ids(t) <= m.Keys
  {
    SpellsIds(m, t);
  }

  /** The records of a node and of its children. */
  lemma ChildRecords(m: Records, t: Tree)
    requires t.Node? && Spells(m, t) && Unshared(t)
    ensures t.id in m && m[t.id].left == Root(t.left) && m[t.id].right == Root(t.right) && m[t.id].height == t.height
    ensures Spells(m, t.left) && Spells(m, t.right) && Unshared(t.left) && Unshared(t.right)
    ensures t.left.Node? ==> t.left.id in m && m[t.left.id].val == t.left.val
    ensures t.right.Node? ==> t.right.id in m && m[t.right.id].val == t.right.val
    ensures t.id !in Ids(t.left) && t.id !in Ids(t.right) && Ids(t.left) !! Ids(t.right)
    ensures t.id in Ids(t) && Ids(t.left) <= Ids(t) && Ids(t.right) <= Ids(t)
  {
  }

  lemma RootNotZero(m: Records, t: Tree)
    requires Spells(m, t) && Unshared(t)
    ensures Root(t) == 0 <==> t.Leaf?
    ensures t.Node? ==> t.id in m && t.id in Ids(t) && m[t.id].parent == t.parent
  {
  }

  /** The record of any node of the tree. */
  lemma {:induction false} SpellsAt(m: Records, t: Tree, id: nat)
    requires Spells(m, t) && Unshared(t) && id in Ids(t)
    ensures id in m && id != 0 && Spells(m, At(t, id)) && Unshared(At(t, id))
    ensures var s := At(t, id);
      && m[id].left == Root(s.left) && m[id].right == Root(s.right) && m[id].parent == s.parent && m[id].val == s.val
      && (s.left.Leaf? <==> m[id].left == 0) && (s.right.Leaf? <==> m[id].right == 0)
  {
    if t.id != id {
      if id in Ids(t.left) {
        SpellsAt(m, t.left, id);
      } else {
        SpellsAt(m, t.right, id);
      }
    }
  }

  /** Where the links of a record lead, in terms of the traversal: down. */
  lemma StepDown(m: Records, t: Tree, id: nat)
    requires Spells(m, t) && Unshared(t) && id in Ids(t)
    ensures id in m && id != 0 && Size(At(t, id)) <= Size(t) && Place(t, id) < |Order(t)| && Order(t)[Place(t, id)] == id
    ensures var (l, s) := (m[id].left, At(t, id));
      if l == 0 then Place(t, id) == Start(t, id)
      else l in Ids(t) && Size(At(t, l)) < Size(s) && Start(t, l) == Start(t, id) && Start(t, l) + Size(At(t, l)) == Place(t, id)
    ensures var (r, s) := (m[id].right, At(t, id));
      if r == 0 then Place(t, id) + 1 == Start(t, id) + Size(s)
      else r in Ids(t) && Size(At(t, r)) < Size(s) && Start(t, r) == Place(t, id) + 1
           && Start(t, r) + Size(At(t, r)) == Start(t, id) + Size(s)
  {
    SpellsAt(m, t, id);
    Children(t, id);
    SmallerThanWhole(t, id);
    PlaceHolds(t, id);
  }

  /** Where the parent link of a record leads: to the node whose subtree has this one on the left or on the right. */
  lemma StepUp(m: Records, t: Tree, id: nat)
    requires Spells(m, t) && Unshared(t) && Linked(t, 0) && id in Ids(t)
    ensures id in m && Start(t, id) + Size(At(t, id)) <= |Order(t)|
    ensures m[id].parent == 0 ==> Start(t, id) == 0 && Size(At(t, id)) == |Order(t)|
    ensures m[id].parent != 0 ==>
      var p := m[id].parent;
      && p in Ids(t) && p in m && Size(At(t, id)) < Size(At(t, p)) <= Size(t)
      && (if m[p].right == id then Start(t, p) + Size(At(t, p)) == Start(t, id) + Size(At(t, id))
          else Place(t, p) == Start(t, id) + Size(At(t, id)))
      && (if m[p].left == id then Start(t, p) == Start(t, id) else Place(t, p) + 1 == Start(t, id))
  {
    hide Spells, Order;
    SpellsAt(m, t, id);
    Climb(t, 0, id);
    SmallerThanWhole(t, id);
    WithinWhole(t, id);
    if m[id].parent == 0 {
      AtRoot(t, id);
    } else {
      var p := m[id].parent;
      assert id != t.id;
      SpellsAt(m, t, p);
      Children(t, p);
      SmallerThanWhole(t, p);
      SiblingsDiffer(At(t, p));
    }
  }

  lemma SiblingsDiffer(t: Tree)
    requires t.Node? && Unshared(t)
    ensures t.left.Node? && t.right.Node? ==> t.left.id != t.right.id
  {
    if t.left.Node? && t.right.Node? {
      assert t.left.id in Ids(t.left) && t.right.id in Ids(t.right);
    }
  }

  /** Hanging the tree `t` under another parent changes one record. */
  lemma SpellsReparented(m: Records, m': Records, t: Tree, p: nat)
    requires Spells(m, t) && Unshared(t)
    requires forall id :: id in Ids(t) && id in m && id !in Head(t) ==> id in m' && m'[id] == m[id]
    requires t.Node? ==> t.id in m' && !m'[t.id].status.Erased? && m'[t.id] == m[t.id].(parent := p, status := m'[t.id].status)
    ensures Spells(m', SetParent(t, p))
  {
    if t.Node? {
      SpellsIds(m, t);
      SpellsFrame(m, m', t.left);
      SpellsFrame(m, m', t.right);
    }
  }

  /** The three writes of a rotation: the old top, the new top, and the subtree that changes sides. */
  ghost function Written(m: Records, top: nat, lowered: Record, x: nat, raised: Record, mid: nat): Records
    requires mid != 0 ==> mid in m
  {
    var m' := m[top := lowered][x := raised];
    if mid == 0 then m' else m'[mid := m[mid].(parent := top, status := Changed)]
  }

  /** The nodes that a right rotation of `t` writes are there. */
  ghost predicate RightReady(m: Records, t: Tree) {
    && t.Node? && t.left.Node? && t.id in m && t.left.id in m
    && (Root(t.left.right) != 0 ==> Root(t.left.right) in m)
  }

  ghost predicate LeftReady(m: Records, t: Tree) {
    && t.Node? && t.right.Node? && t.id in m && t.right.id in m
    && (Root(t.right.left) != 0 ==> Root(t.right.left) in m)
  }

  /** The records after the right rotation of `t`. */
  ghost function RotatedRight(m: Records, t: Tree): Records
    requires RightReady(m, t)
  {
    var (x, mid) := (t.left, t.left.right);
    var topHeight := Max(H(mid), H(t.right)) + 1;
    var top := m[t.id].(left := Root(mid), parent := x.id, height := topHeight, status := Changed);
    var raised := m[x.id].(right := t.id, parent := t.parent, height := Max(H(x.left), topHeight) + 1, status := Changed);
    Written(m, t.id, top, x.id, raised, Root(mid))
  }

  ghost function RotatedLeft(m: Records, t: Tree): Records
    requires LeftReady(m, t)
  {
    var (y, mid) := (t.right, t.right.left);
    var topHeight := Max(H(t.left), H(mid)) + 1;
    var top := m[t.id].(right := Root(mid), parent := y.id, height := topHeight, status := Changed);
    var raised := m[y.id].(left := t.id, parent := t.parent, height := Max(topHeight, H(y.right)) + 1, status := Changed);
    Written(m, t.id, top, y.id, raised, Root(mid))
  }

  /** What a right rotation relies on: the nodes it touches are there and differ. */
  lemma RightRotationNodes(m: Records, t: Tree)
    requires t.Node? && t.left.Node? && Spells(m, t) && Unshared(t)
    ensures t.id != t.left.id && {t.id, t.left.id} + Head(t.left.right) <= Ids(t) && Ids(t) <= m.Keys
    ensures t.id !in Head(t.left.right) && t.left.id !in Head(t.left.right) && 0 !in Head(t.left.right)
    ensures Spells(m, t.right) && Spells(m, t.left) && Spells(m, t.left.left) && Spells(m, t.left.right)
    ensures Unshared(t.right) && Unshared(t.left) && Unshared(t.left.left) && Unshared(t.left.right)
    ensures 0 !in Ids(t)
  {
    NonZero(t);
    assert t.left.id in Ids(t.left) && Head(t.left.right) <= Ids(t.left.right) <= Ids(t.left);
    SpellsIds(m, t);
  }

  lemma LeftRotationNodes(m: Records, t: Tree)
    requires t.Node? && t.right.Node? && Spells(m, t) && Unshared(t)
    ensures t.id != t.right.id && {t.id, t.right.id} + Head(t.right.left) <= Ids(t) && Ids(t) <= m.Keys
    ensures t.id !in Head(t.right.left) && t.right.id !in Head(t.right.left) && 0 !in Head(t.right.left)
    ensures Spells(m, t.left) && Spells(m, t.right) && Spells(m, t.right.left) && Spells(m, t.right.right)
    ensures Unshared(t.left) && Unshared(t.right) && Unshared(t.right.left) && Unshared(t.right.right)
    ensures 0 !in Ids(t)
  {
    NonZero(t);
    assert t.right.id in Ids(t.right) && Head(t.right.left) <= Ids(t.right.left) <= Ids(t.right);
    SpellsIds(m, t);
  }

  /** The writes of a right rotation, in terms of the records it reads. */
  lemma RightRotationWrites(m: Records, t: Tree)
    requires t.Node? && t.left.Node? && Spells(m, t) && Unshared(t)
    ensures RightReady(m, t) && m[t.id].left == t.left.id && m[t.left.id].right == Root(t.left.right)
    ensures var (top, x) := (m[t.id], m[t.left.id]);
      && (forall id :: id in {x.right, top.right, x.left} ==> id == 0 || id in m)
      && x.right !in {t.id, t.left.id} && t.id != t.left.id && x.right in {0} + Ids(t)
      && var h := Max(HeightIn(m, x.right), HeightIn(m, top.right)) + 1;
      RotatedRight(m, t) == Written(m,
        t.id, top.(left := x.right, parent := t.left.id, height := h, status := Changed),
        t.left.id, x.(right := t.id, parent := top.parent, height := Max(HeightIn(m, x.left), h) + 1, status := Changed),
        x.right)
  {
    RightRotationNodes(m, t);
    var (top, x) := (m[t.id], m[t.left.id]);
    assert top.left == t.left.id && top.right == Root(t.right) && top.parent == t.parent;
    assert x.left == Root(t.left.left) && x.right == Root(t.left.right);
    HeightInSpelled(m, t.right);
    HeightInSpelled(m, t.left.left);
    HeightInSpelled(m, t.left.right);
  }

  lemma LeftRotationWrites(m: Records, t: Tree)
    requires t.Node? && t.right.Node? && Spells(m, t) && Unshared(t)
    ensures LeftReady(m, t) && m[t.id].right == t.right.id && m[t.right.id].left == Root(t.right.left)
    ensures var (top, y) := (m[t.id], m[t.right.id]);
      && (forall id :: id in {y.left, top.left, y.right} ==> id == 0 || id in m)
      && y.left !in {t.id, t.right.id} && t.id != t.right.id && y.left in {0} + Ids(t)
      && var h := Max(HeightIn(m, top.left), HeightIn(m, y.left)) + 1;
      RotatedLeft(m, t) == Written(m,
        t.id, top.(right := y.left, parent := t.right.id, height := h, status := Changed),
        t.right.id, y.(left := t.id, parent := top.parent, height := Max(h, HeightIn(m, y.right)) + 1, status := Changed),
        y.left)
  {
    LeftRotationNodes(m, t);
    var (top, y) := (m[t.id], m[t.right.id]);
    assert top.left == Root(t.left) && top.right == t.right.id && top.parent == t.parent;
    assert y.left == Root(t.right.left) && y.right == Root(t.right.right);
    HeightInSpelled(m, t.left);
    HeightInSpelled(m, t.right.left);
    HeightInSpelled(m, t.right.right);
  }

  lemma RootInIds(t: Tree)
    ensures t.Node? ==> t.id in Ids(t)
  {
  }

  /** The root nonce of a tree is 0 exactly when the tree is empty. */
  lemma LeafRoots(t: Tree)
    requires t.Node? && Unshared(t)
    ensures (Root(t.left) == 0 <==> t.left.Leaf?) && (Root(t.right) == 0 <==> t.right.Leaf?)
  {
  }

  /** The records that a right rotation leaves. */
  lemma RotatedRightRecords(m: Records, t: Tree)
    requires t.Node? && t.left.Node? && Spells(m, t) && Unshared(t)
    ensures RightReady(m, t)
    ensures var (m', h) := (RotatedRight(m, t), Max(H(t.left.right), H(t.right)) + 1);
      && m'.Keys == m.Keys
      && m'[t.id] == Record(Root(t.left.right), Root(t.right), h, t.left.id, t.val, Changed)
      && m'[t.left.id] == Record(Root(t.left.left), t.id, Max(H(t.left.left), h) + 1, t.parent, t.left.val, Changed)
      && (t.left.right.Node? ==>
            && t.left.right.id in m
            && m'[t.left.right.id] == m[t.left.right.id].(parent := t.id, status := Changed))
      && forall id :: id in m && id !in {t.id, t.left.id} + Head(t.left.right) ==> m'[id] == m[id]
  {
    hide Unshared, Ids;
    RightRotationNodes(m, t);
    assert m[t.id] == Record(Root(t.left), Root(t.right), t.height, t.parent, t.val, m[t.id].status);
    var x := t.left;
    assert m[x.id] == Record(Root(x.left), Root(x.right), x.height, x.parent, x.val, m[x.id].status);
    assert t.left.right.Node? ==> t.left.right.id in m && t.left.right.id != 0;
  }

  lemma SpellsRotatedRight(m: Records, t: Tree)
    requires t.Node? && t.left.Node? && Spells(m, t) && Unshared(t)
    ensures RightReady(m, t)
    ensures Spells(RotatedRight(m, t), RotateRight(t))
    ensures RotatedRight(m, t).Keys == m.Keys && Same(m, RotatedRight(m, t), Ids(t))
  {
    hide RotatedRight, Written, RightReady;
    RotatedRightRecords(m, t);
    RightRotationNodes(m, t);
    var (x, m') := (t.left, RotatedRight(m, t));
    assert Ids(x.left) !! Ids(x.right) && x.id !in Ids(x.left) && x.id !in Ids(x.right);
    assert Ids(x.left) <= Ids(x) && Ids(x.right) <= Ids(x) && x.id in Ids(x) && Head(t.left.right) <= Ids(t.left.right);
    SpellsFrame(m, m', t.left.left);
    SpellsFrame(m, m', t.right);
    SpellsReparented(m, m', t.left.right, t.id);
  }

  /** The records that a left rotation leaves. */
  lemma RotatedLeftRecords(m: Records, t: Tree)
    requires t.Node? && t.right.Node? && Spells(m, t) && Unshared(t)
    ensures LeftReady(m, t)
    ensures var (m', h) := (RotatedLeft(m, t), Max(H(t.left), H(t.right.left)) + 1);
      && m'.Keys == m.Keys
      && m'[t.id] == Record(Root(t.left), Root(t.right.left), h, t.right.id, t.val, Changed)
      && m'[t.right.id] == Record(t.id, Root(t.right.right), Max(h, H(t.right.right)) + 1, t.parent, t.right.val, Changed)
      && (t.right.left.Node? ==>
            && t.right.left.id in m
            && m'[t.right.left.id] == m[t.right.left.id].(parent := t.id, status := Changed))
      && forall id :: id in m && id !in {t.id, t.right.id} + Head(t.right.left) ==> m'[id] == m[id]
  {
    hide Unshared, Ids;
    LeftRotationNodes(m, t);
    assert m[t.id] == Record(Root(t.left), Root(t.right), t.height, t.parent, t.val, m[t.id].status);
    var y := t.right;
    assert m[y.id] == Record(Root(y.left), Root(y.right), y.height, y.parent, y.val, m[y.id].status);
    assert t.right.left.Node? ==> t.right.left.id in m && t.right.left.id != 0;
  }

  lemma SpellsRotatedLeft(m: Records, t: Tree)
    requires t.Node? && t.right.Node? && Spells(m, t) && Unshared(t)
    ensures LeftReady(m, t)
    ensures Spells(RotatedLeft(m, t), RotateLeft(t))
    ensures RotatedLeft(m, t).Keys == m.Keys && Same(m, RotatedLeft(m, t), Ids(t))
  {
    hide RotatedLeft, Written, LeftReady;
    RotatedLeftRecords(m, t);
    LeftRotationNodes(m, t);
    var (y, m') := (t.right, RotatedLeft(m, t));
    assert Ids(y.left) !! Ids(y.right) && y.id !in Ids(y.left) && y.id !in Ids(y.right);
    assert Ids(y.left) <= Ids(y) && Ids(y.right) <= Ids(y) && y.id in Ids(y) && Head(t.right.left) <= Ids(t.right.left);
    SpellsFrame(m, m', t.right.right);
    SpellsFrame(m, m', t.left);
    SpellsReparented(m, m', t.right.left, t.id);
  }

  /** Giving the root of `t` another left subtree, and perhaps another height. */
  lemma SpellsWithLeft(m: Records, m': Records, t: Tree, l: Tree, h: nat)
    requires t.Node? && Spells(m, t) && Unshared(t)
    requires Spells(m', l) && t.id !in Ids(l) && Same(m, m', Ids(t.left)) && Ids(l) !! Ids(t.right)
    ensures t.id in m' && m'[t.id] == m[t.id]
    ensures Spells(m'[t.id := m'[t.id].(left := Root(l), height := h, status := Changed)], t.(left := l, height := h))
  {
    SpellsIds(m, t);
    var m2 := m'[t.id := m'[t.id].(left := Root(l), height := h, status := Changed)];
    SpellsFrame(m', m2, l);
    SpellsFrame(m, m2, t.right);
  }

  lemma SpellsWithRight(m: Records, m': Records, t: Tree, r: Tree, h: nat)
    requires t.Node? && Spells(m, t) && Unshared(t)
    requires Spells(m', r) && t.id !in Ids(r) && Same(m, m', Ids(t.right)) && Ids(r) !! Ids(t.left)
    ensures t.id in m' && m'[t.id] == m[t.id]
    ensures Spells(m'[t.id := m'[t.id].(right := Root(r), height := h, status := Changed)], t.(right := r, height := h))
  {
    SpellsIds(m, t);
    var m2 := m'[t.id := m'[t.id].(right := Root(r), height := h, status := Changed)];
    SpellsFrame(m', m2, r);
    SpellsFrame(m, m2, t.left);
  }

  /** After a child tree `l` was built under `t`, re-parented and hung on the left. */
  lemma SpellsGraftedLeft(m: Records, m1: Records, t: Tree, l: Tree, m2: Records, h: nat)
    requires t.Node? && Spells(m, t) && Unshared(t) && Unshared(l)
    requires Spells(m1, l) && t.id !in Ids(l) && Same(m, m1, Ids(t.left)) && Ids(l) !! Ids(t.right)
    requires l.Node? ==> l.id in m1
    requires m2 == if l.Leaf? then m1 else m1[l.id := m1[l.id].(parent := t.id)]
    ensures t.id in m2 && m2[t.id] == m[t.id]
    ensures Spells(m2, SetParent(l, t.id)) && Spells(m2, t.right)
    ensures Spells(m2[t.id := m[t.id].(left := Root(l), height := h, status := Changed)],
                   t.(left := SetParent(l, t.id), height := h))
  {
    SpellsIds(m, t);
    SpellsIds(m1, l);
    assert Head(l) <= Ids(l);
    SpellsReparented(m1, m2, l, t.id);
    SpellsFrame(m, m2, t.right);
    SetParentKeeps(l, t.id);
    var m3 := m2[t.id := m[t.id].(left := Root(l), height := h, status := Changed)];
    SpellsFrame(m2, m3, SetParent(l, t.id));
    SpellsFrame(m2, m3, t.right);
  }

  lemma SpellsGraftedRight(m: Records, m1: Records, t: Tree, r: Tree, m2: Records, h: nat)
    requires t.Node? && Spells(m, t) && Unshared(t) && Unshared(r)
    requires Spells(m1, r) && t.id !in Ids(r) && Same(m, m1, Ids(t.right)) && Ids(r) !! Ids(t.left)
    requires r.Node? ==> r.id in m1
    requires m2 == if r.Leaf? then m1 else m1[r.id := m1[r.id].(parent := t.id)]
    ensures t.id in m2 && m2[t.id] == m[t.id]
    ensures Spells(m2, SetParent(r, t.id)) && Spells(m2, t.left)
    ensures Spells(m2[t.id := m[t.id].(right := Root(r), height := h, status := Changed)],
                   t.(right := SetParent(r, t.id), height := h))
  {
    SpellsIds(m, t);
    SpellsIds(m1, r);
    assert Head(r) <= Ids(r);
    SpellsReparented(m1, m2, r, t.id);
    SpellsFrame(m, m2, t.left);
    SetParentKeeps(r, t.id);
    var m3 := m2[t.id := m[t.id].(right := Root(r), height := h, status := Changed)];
    SpellsFrame(m2, m3, SetParent(r, t.id));
    SpellsFrame(m2, m3, t.left);
  }

  /** Every parent link below the root of `t` is right. */
  ghost predicate LinkedBelow(t: Tree) {
    t.Node? ==> Linked(t.left, t.id) && Linked(t.right, t.id)
  }

  /** The trees of an insertion below `t`: `sub` replaces its subtree `child`, and `u` is the tree before it is rotated. */
  ghost predicate InsertSteps(t: Tree, v: int, nonce: nat, child: Tree, sub: Tree, u: Tree)
    requires t.Node?
  {
    && Sound(sub) && t.id !in Ids(sub) && Ids(sub) <= Ids(child) + {nonce}
    && u.Node? && u.id == t.id && Unshared(u) && Ids(u) <= Ids(t) + {nonce}
    && TreeInsert(t, v, nonce) == RebalanceInsert(u, v)
    && Finds(t, v) == Finds(child, v)
    && (TreeInsert(t, v, nonce).Some? ==> Sound(TreeInsert(t, v, nonce).value))
    && (LinkedBelow(t) ==> Linked(sub, LinkAfterInsert(child, t.id)))
  }

  /**
   What `insertNode` does to the part `ids` of the records `m`, with `n` nonces given out and `size`
   values, when its tree becomes `res`, or `broken` when it throws; `found` says that the value was there.
   */
  ghost predicate Outcome(res: Option<Tree>, broken: Tree, found: bool, ids: set<nat>, m: Records, n: nat, size: nat,
                          ok: bool, r: nat, t': Tree, m': Records, n': nat, size': nat)
  {
    && (ok <==> res.Some?)
    && (if ok then res == Some(t') && r == Root(t') else t' == broken)
    && Spells(m', t') && Same(m, m', ids) && Numbers(m', n')
    && n' == n + (if found then 0 else 1) && size' == size + (if found then 0 else 1)
    && m'.Keys == m.Keys + (if found then {} else {n + 1})
  }

  /** What a subtree that was inserted into looks like. */
  lemma OutcomeFacts(res: Option<Tree>, broken: Tree, found: bool, ids: set<nat>, m: Records, n: nat, size: nat,
                     ok: bool, r: nat, t': Tree, m': Records, n': nat, size': nat)
    requires Outcome(res, broken, found, ids, m, n, size, ok, r, t', m', n', size')
    ensures ok <==> res.Some?
    ensures ok ==> res == Some(t') && r == Root(t') && Outcome(Some(t'), broken, found, ids, m, n, size, true, r, t', m', n', size')
    ensures Spells(m', t') && Same(m, m', ids) && Numbers(m', n')
  {
  }

  /** From the outcome on a subtree, over its attachment and a rotation, to the outcome on the tree. */
  lemma OutcomeThrough(found: bool, a: set<nat>, m: Records, n: nat, size: nat,
                       child: nat, sub: Tree, m1: Records, n1: nat, size1: nat, b: set<nat>, id: nat, m2: Records,
                       res: Option<Tree>, broken: Tree, ok: bool, r: nat, t': Tree, m3: Records,
                       c: set<nat>, ids: set<nat>, below: Tree)
    requires Outcome(Some(sub), below, found, a, m, n, size, true, child, sub, m1, n1, size1)
    requires m2.Keys == m1.Keys && Same(m1, m2, b + {id})
    requires (ok <==> res.Some?) && Spells(m3, t')
    requires if ok then res == Some(t') && r == Root(t') else t' == broken
    requires m3.Keys == m2.Keys && Same(m2, m3, c)
    requires a <= ids && b <= a + {n + 1} && c <= ids + {n + 1} && id in ids && n + 1 !in m
    ensures Outcome(res, broken, found, ids, m, n, size, ok, r, t', m3, n1, size1)
  {
    NumbersKeys(m1, m3, n1);
    SameThrough(m, m1, m2, m3, a, b, c, id, ids, n + 1);
  }

  lemma LinkedBelowChildren(t: Tree)
    requires t.Node? && LinkedBelow(t)
    ensures LinkedBelow(t.left) && LinkedBelow(t.right)
  {
  }

  /** The record of a new subtree already names its parent, unless the subtree is a new node. */
  lemma InsertedParent(t: Tree, v: int, nonce: nat, c: Tree, sub: Tree, m: Records)
    requires t.Node? && LinkedBelow(t) && Spells(m, sub)
    requires exists u :: InsertSteps(t, v, nonce, c, sub, u)
    ensures c.Node? && sub.Node? ==> sub.id in m && m[sub.id].parent == t.id
  {
  }

  /** An insertion that fails on the left fails here, and leaves this node as it is. */
  lemma InsertFailsOnLeft(t: Tree, v: int, m: Records, n: nat, size: nat, r: nat, r': nat, l: Tree, m': Records, n': nat, size': nat)
    requires t.Node? && v < t.val && Sound(t) && Spells(m, t) && n + 1 !in m && n + 1 !in Ids(t)
    requires Outcome(TreeInsert(t.left, v, n + 1), Interrupted(t.left, v, n + 1), Finds(t.left, v), Ids(t.left),
                     m, n, size, false, r, l, m', n', size')
    ensures Outcome(TreeInsert(t, v, n + 1), Interrupted(t, v, n + 1), Finds(t, v), Ids(t),
                    m, n, size, false, r', t.(left := l), m', n', size')
  {
    InterruptedAdds(t.left, v, n + 1);
    SpellsIds(m, t);
    SpellsFrame(m, m', t.right);
  }

  lemma InsertFailsOnRight(t: Tree, v: int, m: Records, n: nat, size: nat, r: nat, r': nat, l: Tree, m': Records, n': nat, size': nat)
    requires t.Node? && v > t.val && Sound(t) && Spells(m, t) && n + 1 !in m && n + 1 !in Ids(t)
    requires Outcome(TreeInsert(t.right, v, n + 1), Interrupted(t.right, v, n + 1), Finds(t.right, v), Ids(t.right),
                     m, n, size, false, r, l, m', n', size')
    ensures Outcome(TreeInsert(t, v, n + 1), Interrupted(t, v, n + 1), Finds(t, v), Ids(t),
                    m, n, size, false, r', t.(right := l), m', n', size')
  {
    InterruptedAdds(t.right, v, n + 1);
    SpellsIds(m, t);
    SpellsFrame(m, m', t.left);
  }

  lemma OutcomeOfNewNode(v: int, m: Records, n: nat, size: nat)
    requires Numbers(m, n)
    ensures var m' := m[n + 1 := Record(0, 0, 1, 0, v, Changed)];
      Outcome(TreeInsert(Leaf, v, n + 1), Interrupted(Leaf, v, n + 1), Finds(Leaf, v), Ids(Leaf), m, n, size,
              true, n + 1, Node(n + 1, 1, 0, Leaf, v, Leaf), m', n + 1, size + 1)
  {
  }

  lemma OutcomeOfPresent(t: Tree, m: Records, n: nat, size: nat)
    requires t.Node? && Spells(m, t) && Numbers(m, n)
    ensures Outcome(TreeInsert(t, t.val, n + 1), Interrupted(t, t.val, n + 1), Finds(t, t.val), Ids(t), m, n, size,
                    true, t.id, t, m, n, size)
  {
  }

  lemma InsertTreesLeft(t: Tree, v: int, nonce: nat, sub: Tree)
    requires Sound(t) && t.Node? && v < t.val && nonce != 0 && nonce !in Ids(t)
    requires TreeInsert(t.left, v, nonce) == Some(sub)
    ensures Ids(sub) !! Ids(t.right)
    ensures InsertSteps(t, v, nonce, t.left, sub, Refresh(t.(left := SetParent(sub, t.id))))
    ensures Interrupted(t, v, nonce) == Refresh(t.(left := SetParent(sub, t.id)))
  {
    InsertAdds(t.left, v, nonce);
    BstSides(t, v);
    GraftLeft(t, sub);
    if TreeInsert(t, v, nonce).Some? {
      InsertAdds(t, v, nonce);
    }
    if LinkedBelow(t) {
      InsertKeepsLinks(t.left, t.id, v, nonce);
    }
  }

  lemma InsertTreesRight(t: Tree, v: int, nonce: nat, sub: Tree)
    requires Sound(t) && t.Node? && v > t.val && nonce != 0 && nonce !in Ids(t)
    requires TreeInsert(t.right, v, nonce) == Some(sub)
    ensures Ids(sub) !! Ids(t.left)
    ensures InsertSteps(t, v, nonce, t.right, sub, Refresh(t.(right := SetParent(sub, t.id))))
    ensures Interrupted(t, v, nonce) == Refresh(t.(right := SetParent(sub, t.id)))
  {
    InsertAdds(t.right, v, nonce);
    BstSides(t, v);
    GraftRight(t, sub);
    if TreeInsert(t, v, nonce).Some? {
      InsertAdds(t, v, nonce);
    }
    if LinkedBelow(t) {
      InsertKeepsLinks(t.right, t.id, v, nonce);
    }
  }

  // ---------------------------------------------------------------- outcomes of an erase

  /** What `deleteNode` does to the part `ids` of the records `m` when its tree becomes `res`: the nodes that leave are marked. */
  ghost predicate EraseOutcome(res: Tree, found: bool, ids: set<nat>, m: Records, size: int,
                               r: nat, t': Tree, m': Records, size': int)
  {
    && res == t' && r == Root(t') && Spells(m', t')
    && Same(m, m', ids) && m'.Keys == m.Keys
    && size' == (if found then size - 1 else size)
    && (forall id :: id in ids && id !in Ids(t') ==> id in m' && m'[id].status.Erased?)
    && (t'.Node? ==> r in m' && m'[r].status.Changed?)
  }

  /**
   From the outcome on a subtree over its attachment and a rotation, to the outcome on the tree.  The
   nonces are: `a` in the old subtree, `b` in the new one, `id` the node above it, `o` the rest.
   */
  lemma EraseThrough(found: bool, a: set<nat>, m: Records, size: int, child: nat, sub: Tree, m1: Records, size1: int,
                     id: nat, o: set<nat>, m2: Records, r: nat, t': Tree, m3: Records)
    requires EraseOutcome(sub, found, a, m, size, child, sub, m1, size1)
    requires Ids(sub) <= a && a !! o && id !in a && id !in o
    requires m2.Keys == m1.Keys && Same(m1, m2, Ids(sub) + {id})
    requires r == Root(t') && Spells(m3, t') && m3.Keys == m2.Keys && Same(m2, m3, Ids(t'))
    requires Ids(t') == Ids(sub) + {id} + o
    requires t'.Node? && r in m3 && m3[r].status.Changed?
    ensures EraseOutcome(t', found, a + {id} + o, m, size, r, t', m3, size1)
  {
    forall k | k in a + {id} + o && k !in Ids(t') ensures k in m3 && m3[k].status.Erased? {
      assert k in a && k !in Ids(sub) + {id};
    }
    forall k | k in m && k !in a + {id} + o ensures k in m3 && m3[k] == m[k] {
      assert k !in a && k !in Ids(sub) + {id} && k !in Ids(t');
    }
  }

  /** The trees of an erase below `t`: `sub` replaces its subtree `c`, and `u` is the tree before it is rotated. */
  ghost predicate DeleteSteps(t: Tree, v: int, rule: TieRule, c: Tree, sub: Tree, u: Tree)
    requires t.Node?
  {
    && Sound(sub) && Ids(sub) <= Ids(c) && t.id !in Ids(c)
    && u.Node? && u.id == t.id && Unshared(u) && Exact(u)
    && Exact(t) && TreeDelete(t, v, rule) == RebalanceDelete(u, rule) && TreeDelete(t, v, rule).Node?
    && Ids(TreeDelete(t, v, rule)) == Ids(u)
    && Finds(t, v) == Finds(c, v)
  }

  /** Erasing on the left: the nonces of the three parts stay apart. */
  lemma DeleteIdsLeft(t: Tree, v: int, rule: TieRule, sub: Tree)
    requires Sound(t) && t.Node? && v < t.val && sub == TreeDelete(t.left, v, rule)
    ensures Sound(sub) && Ids(sub) <= Ids(t.left) && t.id !in Ids(t.left)
    ensures Ids(t.left) !! Ids(t.right) && Ids(sub) !! Ids(t.right) && t.id !in Ids(t.right)
    ensures Ids(t) == Ids(t.left) + {t.id} + Ids(t.right)
  {
    hide TreeDelete, Finds;
    DeleteRemoves(t.left, v, rule);
  }

  lemma DeleteTreesLeft(t: Tree, v: int, rule: TieRule, sub: Tree)
    requires Sound(t) && t.Node? && v < t.val && sub == TreeDelete(t.left, v, rule)
    ensures Ids(t.left) !! Ids(t.right) && Ids(sub) !! Ids(t.right) && t.id !in Ids(t.right)
    ensures DeleteSteps(t, v, rule, t.left, sub, Refresh(t.(left := SetParent(sub, t.id))))
    ensures Ids(t) == Ids(t.left) + {t.id} + Ids(t.right)
    ensures Ids(TreeDelete(t, v, rule)) == Ids(sub) + {t.id} + Ids(t.right)
  {
    hide TreeDelete, Finds;
    TreeDeleteBelow(t, v, rule);
    FindsBelow(t, v);
    DeleteIdsLeft(t, v, rule, sub);
    DeleteRemoves(t.left, v, rule);
    BstSides(t, v);
    GraftLeft(t, sub);
    SettleKeeps(t.(left := SetParent(sub, t.id)), rule);
  }

  /** Erasing on the right: the nonces of the three parts stay apart. */
  lemma DeleteIdsRight(t: Tree, v: int, rule: TieRule, sub: Tree)
    requires Sound(t) && t.Node? && v > t.val && sub == TreeDelete(t.right, v, rule)
    ensures Sound(sub) && Ids(sub) <= Ids(t.right) && t.id !in Ids(t.right)
    ensures Ids(t.right) !! Ids(t.left) && Ids(sub) !! Ids(t.left) && t.id !in Ids(t.left)
    ensures Ids(t) == Ids(t.right) + {t.id} + Ids(t.left)
  {
    hide TreeDelete, Finds;
    DeleteRemoves(t.right, v, rule);
  }

  lemma DeleteTreesRight(t: Tree, v: int, rule: TieRule, sub: Tree)
    requires Sound(t) && t.Node? && v > t.val && sub == TreeDelete(t.right, v, rule)
    ensures Ids(t.right) !! Ids(t.left) && Ids(sub) !! Ids(t.left) && t.id !in Ids(t.left)
    ensures DeleteSteps(t, v, rule, t.right, sub, Refresh(t.(right := SetParent(sub, t.id))))
    ensures Ids(t) == Ids(t.right) + {t.id} + Ids(t.left)
    ensures Ids(TreeDelete(t, v, rule)) == Ids(sub) + {t.id} + Ids(t.left)
  {
    hide TreeDelete, Finds;
    TreeDeleteBelow(t, v, rule);
    FindsBelow(t, v);
    DeleteIdsRight(t, v, rule, sub);
    DeleteRemoves(t.right, v, rule);
    BstSides(t, v);
    GraftRight(t, sub);
    SettleKeeps(t.(right := SetParent(sub, t.id)), rule);
  }

  lemma TreeDeleteBelow(t: Tree, v: int, rule: TieRule)
    requires Exact(t) && t.Node?
    ensures v < t.val ==> TreeDelete(t, v, rule) == Settle(t.(left := SetParent(TreeDelete(t.left, v, rule), t.id)), rule)
    ensures v > t.val ==> TreeDelete(t, v, rule) == Settle(t.(right := SetParent(TreeDelete(t.right, v, rule), t.id)), rule)
  {
  }

  lemma FindsBelow(t: Tree, v: int)
    requires t.Node?
    ensures v < t.val ==> Finds(t, v) == Finds(t.left, v)
    ensures v > t.val ==> Finds(t, v) == Finds(t.right, v)
    ensures v == t.val ==> Finds(t, v)
  {
  }

  lemma EraseNothing(v: int, rule: TieRule, m: Records, size: int)
    ensures EraseOutcome(TreeDelete(Leaf, v, rule), Finds(Leaf, v), Ids(Leaf), m, size, 0, Leaf, m, size)
  {
  }

  lemma {:induction false} FindsMin(t: Tree)
    requires t.Node? && Bst(t)
    ensures Finds(t, Min(t))
  {
    FindsIffMember(t, Min(t));
  }

  lemma ErasedLeaf(t: Tree, v: int, rule: TieRule, m: Records, size: int)
    requires t.Node? && Sound(t) && v == t.val && t.left.Leaf? && t.right.Leaf? && t.id in m
    ensures EraseOutcome(TreeDelete(t, v, rule), Finds(t, v), Ids(t), m, size,
                         0, Leaf, m[t.id := m[t.id].(status := Erased)], size - 1)
  {
  }

  /** The records after the only child of `t` was copied over `t` and marked. */
  ghost function Spliced(m: Records, t: Tree, h: nat): Records
    requires t.Node? && (t.left.Leaf? || t.right.Leaf?) && t.id in m && Root(OnlyChild(t)) in m
  {
    var c := Root(OnlyChild(t));
    m[t.id := m[c].(parent := m[t.id].parent, height := h, status := Changed)][c := m[c].(status := Erased)]
  }

  /** The only child of `t`: where it is, and what its records say. */
  lemma OnlyChildRecords(m: Records, t: Tree)
    requires t.Node? && (t.left.Leaf? || t.right.Leaf?) && OnlyChild(t).Node? && Spells(m, t) && Sound(t)
    ensures var c := OnlyChild(t);
      && t.id in m && c.id in m && t.id !in Ids(c) && Ids(t) == Ids(c) + {t.id} && Ids(t) <= m.Keys
      && m[t.id].left == Root(t.left) && m[t.id].right == Root(t.right) && m[t.id].parent == t.parent
      && m[c.id] == Record(Root(c.left), Root(c.right), c.height, c.parent, c.val, m[c.id].status)
      && Sound(c) && Spells(m, c) && c.id in Ids(c)
  {
    SpellsIds(m, t);
  }

  /** The tree left by splicing: the node of `t` with the contents of its only child. */
  lemma SplicedTree(t: Tree)
    requires t.Node? && (t.left.Leaf? || t.right.Leaf?) && OnlyChild(t).Node? && Sound(t)
    ensures var (c, u) := (OnlyChild(t), Refresh(Splice(t)));
      && u == Node(t.id, 1 + Max(H(c.left), H(c.right)), t.parent, c.left, c.val, c.right)
      && Unshared(u) && Exact(u) && Ids(u) == Ids(t) - {c.id}
  {
    hide Bst, Vals, Ids, Unshared, Exact;
    hide Splice, OnlyChild, Refresh, H;
    OnlyChildWithin(t);
    SpliceIs(t);
    RenamedTree(OnlyChild(t), t.id, t.parent);
  }

  lemma SpliceIs(t: Tree)
    requires t.Node? && (t.left.Leaf? || t.right.Leaf?) && OnlyChild(t).Node?
    ensures var c := OnlyChild(t);
      Splice(t).Node? && Refresh(Splice(t)) == Node(t.id, 1 + Max(H(c.left), H(c.right)), t.parent, c.left, c.val, c.right)
  {
  }

  /** A node that takes over the contents of `c`. */
  lemma RenamedTree(c: Tree, id: nat, p: nat)
    requires c.Node? && Exact(c) && Unshared(c) && id != 0 && id !in Ids(c)
    ensures var u := Node(id, 1 + Max(H(c.left), H(c.right)), p, c.left, c.val, c.right);
            Unshared(u) && Exact(u) && Ids(u) == Ids(c) + {id} - {c.id}
  {
    assert Ids(c) == Ids(c.left) + {c.id} + Ids(c.right);
  }

  lemma OnlyChildWithin(t: Tree)
    requires t.Node? && (t.left.Leaf? || t.right.Leaf?) && Exact(t) && Unshared(t)
    ensures Exact(OnlyChild(t)) && Unshared(OnlyChild(t))
    ensures Ids(t) == Ids(OnlyChild(t)) + {t.id} && t.id !in Ids(OnlyChild(t)) && t.id != 0
  {
  }

  /** Copying the record of the root of `c` over the record of `id`, and marking the original. */
  lemma SpellsCopied(m: Records, id: nat, c: Tree, p: nat, h: nat)
    requires c.Node? && Spells(m, c) && Unshared(c) && id in m && id !in Ids(c)
    ensures c.id in m && id != c.id
    ensures var m' := m[id := m[c.id].(parent := p, height := h, status := Changed)][c.id := m[c.id].(status := Erased)];
      && Spells(m', Node(id, h, p, c.left, c.val, c.right)) && Same(m, m', {id, c.id}) && m'.Keys == m.Keys
  {
    ChildRecords(m, c);
    var m' := m[id := m[c.id].(parent := p, height := h, status := Changed)][c.id := m[c.id].(status := Erased)];
    SpellsFrame(m, m', c.left);
    SpellsFrame(m, m', c.right);
  }

  lemma SpellsSpliced(m: Records, t: Tree, c: Tree, u: Tree)
    requires t.Node? && (t.left.Leaf? || t.right.Leaf?) && Spells(m, t) && Sound(t)
    requires c == OnlyChild(t) && c.Node? && u == Refresh(Splice(t))
    ensures t.id in m && c.id in m && t.id != c.id
    ensures m[t.id].left == Root(t.left) && m[t.id].right == Root(t.right) && m[t.id].parent == t.parent
    ensures Spells(Spliced(m, t, u.height), u) && Unshared(u) && Exact(u) && u.id == t.id && Ids(u) == Ids(t) - {c.id}
    ensures HeightsOf(m, c.id)
    ensures u.height == 1 + Max(HeightIn(m, m[c.id].left), HeightIn(m, m[c.id].right))
    ensures Same(m, Spliced(m, t, u.height), {t.id, c.id}) && Spliced(m, t, u.height).Keys == m.Keys
  {
    hide Exact, Bst, Vals, Unshared, Linked, Ids, Spells, Same, Splice;
    OnlyChildRecords(m, t);
    SplicedTree(t);
    ChildRecords(m, c);
    HeightInSpelled(m, c.left);
    HeightInSpelled(m, c.right);
    SpellsCopied(m, t.id, c, t.parent, u.height);
  }

  /** The climb of `++` from record to record; `None` when a record is missing or the fuel is out. */
  function ClimbBy(m: Records, now: nat, fuel: nat): Option<nat>
    decreases fuel
  {
    if fuel == 0 || now !in m then None
    else
      var parent := m[now].parent;
      if parent == 0 then Some(0)
      else if parent !in m then None
      else if m[parent].right == now then ClimbBy(m, parent, fuel - 1)
      else Some(parent)
  }

  /**
   After a child with a child of its own is copied over its parent, `++` from the last grandchild
   climbs through the erased record and comes back to a smaller value.
   */
  lemma StaleClimbGoesBack(m: Records, t: Tree, p: nat, h: nat)
    requires t.Node? && t.left.Leaf? && t.right.Node? && t.right.right.Node? && t.right.right.right.Leaf?
    requires Spells(m, t) && Sound(t) && Linked(t, p) && t.id in m && t.right.id in m
    ensures var (c, g, m') := (t.right, t.right.right, Spliced(m, t, h));
      && g.id in m' && m'[g.id].right == 0 && ClimbBy(m', g.id, 2) == Some(t.id)
      && m'[t.id].val == c.val < g.val == m'[g.id].val
  {
    var (c, g) := (t.right, t.right.right);
    OnlyChildRecords(m, t);
    assert g.id in Ids(g) && g.val in Vals(g) && g.id in Ids(c) && g.id != c.id && g.id != t.id && c.id != t.id;
    NonZero(t);
    assert Spells(m, g) && Linked(c, t.id) && Linked(g, c.id);
    assert m[g.id].parent == c.id && m[c.id].parent == t.id && m[c.id].right == g.id;
  }

  /** The outcome of erasing a value whose node has one child. */
  lemma EraseBySplice(t: Tree, rule: TieRule, m: Records, size: int, r: nat, t': Tree, m3: Records)
    requires t.Node? && (t.left.Leaf? || t.right.Leaf?) && OnlyChild(t).Node? && Spells(m, t) && Sound(t)
    requires t.id in m && OnlyChild(t).id in m
    requires var u := Refresh(Splice(t));
      Exact(u) && t' == RebalanceDelete(u, rule) && r == Root(t') && Spells(m3, t')
      && m3.Keys == m.Keys && Same(Spliced(m, t, u.height), m3, Ids(u))
    requires t'.Node? && r in m3 && m3[r].status.Changed?
    ensures EraseOutcome(TreeDelete(t, t.val, rule), Finds(t, t.val), Ids(t), m, size, r, t', m3, size - 1)
  {
    var (u, c) := (Refresh(Splice(t)), OnlyChild(t));
    SpellsSpliced(m, t, c, u);
    RebalanceDeleteKeeps(u, rule);
    assert TreeDelete(t, t.val, rule) == t';
    var m' := Spliced(m, t, u.height);
    assert c.id in Ids(c) && c.id in Ids(t) && t.id in Ids(t);
    assert Same(m, m3, Ids(t));
    assert m'[c.id].status.Erased? && m3[c.id] == m'[c.id];
  }

  /** What the steps of replacing a value by the least one on its right rely on. */
  lemma MinTrees(t: Tree, rule: TieRule, sub: Tree)
    requires t.Node? && t.left.Node? && t.right.Node? && Sound(t) && sub == TreeDelete(t.right, Min(t.right), rule)
    ensures Sound(sub) && Ids(sub) <= Ids(t.right) && Ids(sub) !! Ids(t.left) && t.id !in Ids(sub)
    ensures Ids(t.right) !! Ids(t.left) && t.id !in Ids(t.right) && t.id !in Ids(t.left)
    ensures Ids(t) == Ids(t.right) + {t.id} + Ids(t.left)
    ensures var u := Refresh(t.(val := Min(t.right), right := sub));
      && u.id == t.id && Unshared(u) && Exact(u) && RebalanceDelete(u, rule) == TreeDelete(t, t.val, rule)
      && Ids(TreeDelete(t, t.val, rule)) == Ids(sub) + {t.id} + Ids(t.left) == Ids(u)
  {
    DeleteRemoves(t.right, Min(t.right), rule);
    SettleKeeps(t.(val := Min(t.right), right := sub), rule);
  }

  lemma SpellsWithMin(m: Records, m': Records, t: Tree, w: int, r: Tree)
    requires t.Node? && Spells(m, t) && Unshared(t) && Unshared(r)
    requires Spells(m', r) && t.id !in Ids(r) && Same(m, m', Ids(t.right)) && Ids(r) !! Ids(t.left)
    ensures t.id in m' && m'[t.id] == m[t.id] && m[t.id].left == Root(t.left) && Spells(m', t.left)
    ensures Root(r) == 0 || Root(r) in m'
    ensures Root(t.left) == 0 || Root(t.left) in m'
    ensures var u := Refresh(t.(val := w, right := r));
      && u.height == 1 + Max(HeightIn(m', Root(t.left)), HeightIn(m', Root(r)))
      && Spells(m'[t.id := m'[t.id].(val := w, right := Root(r), height := u.height, status := Changed)], u)
  {
    SpellsIds(m, t);
    SpellsFrame(m, m', t.left);
    HeightInSpelled(m', t.left);
    HeightInSpelled(m', r);
    var h := Refresh(t.(val := w, right := r)).height;
    var m2 := m'[t.id := m'[t.id].(val := w, right := Root(r), height := h, status := Changed)];
    SpellsFrame(m', m2, r);
    SpellsFrame(m, m2, t.left);
  }

  /** The links of the record of `id` lead to records. */
  ghost predicate HeightsOf(m: Records, id: nat) {
    id in m && (m[id].left == 0 || m[id].left in m) && (m[id].right == 0 || m[id].right in m)
  }

  // ---------------------------------------------------------------- whole calls

  /** Every record outside the tree is marked as erased. */
  ghost predicate OthersErased(m: Records, t: Tree) {
    forall id :: id in m && id !in Ids(t) ==> m[id].status.Erased?
  }

  /** A record store that spells the tree `t` and counts its values. */
  ghost predicate Keeps(m: Records, n: nat, size: int, t: Tree) {
    Sound(t) && Spells(m, t) && Numbers(m, n) && size == |Vals(t)| && OthersErased(m, t)
  }

  lemma KeepsParts(m: Records, n: nat, size: int, t: Tree)
    requires Keeps(m, n, size, t)
    ensures Sound(t) && Spells(m, t) && Numbers(m, n)
  {
  }

  lemma KeepsRepresents(m: Records, n: nat, size: int, t: Tree)
    requires Keeps(m, n, size, t)
    ensures Represents(SetState(t, n, size), Vals(t)) && Ids(t) <= m.Keys
  {
    SpellsIds(m, t);
  }

  lemma StepOfAdd(s: SetState, v: int, rule: TieRule)
    requires Exact(s.tree)
    ensures var (t', found) := (TreeInsert(s.tree, v, s.nonce + 1), Finds(s.tree, v));
      Step(s, Add(v), rule) ==
        if t'.None? then None
        else Some((SetState(t'.value, s.nonce + (if found then 0 else 1), s.size + (if found then 0 else 1)), !found))
  {
  }

  /** The state that an insertion leaves represents the set with `v` in it. */
  lemma AddRepresents(t: Tree, v: int, m: Records, n: nat, size: nat, r: nat, t': Tree, m': Records, n': nat, size': nat)
    requires Keeps(m, n, size, t)
    requires Outcome(TreeInsert(t, v, n + 1), Interrupted(t, v, n + 1), Finds(t, v), Ids(t), m, n, size,
                     true, r, t', m', n', size')
    ensures Represents(SetState(t', n', size'), Vals(t) + {v})
    ensures Added(t, v, n + 1, t') && (Finds(t, v) <==> v in Vals(t))
  {
    hide TreeInsert, Finds, Ids, Vals, Exact, Bst, Unshared, Spells, Same, OthersErased, Numbers, Added, Represents;
    KeepsRepresents(m, n, size, t);
    AddRefines(SetState(t, n, size), Vals(t), v);
    NextIsNew(m, n);
    InsertAdds(t, v, n + 1);
  }

  lemma RepresentsSound(t: Tree, n: nat, size: int, members: set<int>)
    requires Represents(SetState(t, n, size), members)
    ensures Sound(t) && size == |Vals(t)|
  {
  }

  lemma OutcomeOfAdd(t: Tree, v: int, m: Records, n: nat, size: nat, ok: bool, r: nat, t': Tree, m': Records, n': nat, size': nat,
                     rule: TieRule)
    requires Keeps(m, n, size, t)
    requires Outcome(TreeInsert(t, v, n + 1), Interrupted(t, v, n + 1), Finds(t, v), Ids(t), m, n, size,
                     ok, r, t', m', n', size')
    ensures ok <==> Step(SetState(t, n, size), Add(v), rule).Some?
    ensures ok ==> Keeps(m', n', size', t') && r == Root(t') && n' <= n + 1
    ensures ok ==> Step(SetState(t, n, size), Add(v), rule).value == (SetState(t', n', size'), size != size')
  {
    hide TreeInsert, Finds, Ids, Vals, Exact, Bst, Unshared, Spells, Same, OthersErased, Step, Numbers, Added, Represents;
    StepOfAdd(SetState(t, n, size), v, rule);
    if ok {
      AddRepresents(t, v, m, n, size, r, t', m', n', size');
      RepresentsSound(t', n', size', Vals(t) + {v});
      OthersAfterInsert(t, v, m, n, t', m', Finds(t, v));
    }
  }

  /** After an insertion that throws, the records spell a search tree with the value in it, and the counters agree. */
  lemma OutcomeOfThrow(t: Tree, v: int, m: Records, n: nat, size: nat, r: nat, t': Tree, m': Records, n': nat, size': nat)
    requires Keeps(m, n, size, t)
    requires Outcome(TreeInsert(t, v, n + 1), Interrupted(t, v, n + 1), Finds(t, v), Ids(t), m, n, size,
                     false, r, t', m', n', size')
    ensures t' == Interrupted(t, v, n + 1) && Root(t') == Root(t) && Bst(t') && Unshared(t') && Spells(m', t')
    ensures Vals(t') == Vals(t) + {v} && size' == |Vals(t')|
  {
    hide TreeInsert, Interrupted, Ids, Exact, Bst, Unshared, Spells, Same, OthersErased;
    hide Vals, Finds, Numbers;
    KeepsRepresents(m, n, size, t);
    NextIsNew(m, n);
    InterruptedAdds(t, v, n + 1);
    FindsIffMember(t, v);
    if v in Vals(t) {
      assert Vals(t) + {v} == Vals(t);
    }
  }

  lemma NextIsNew(m: Records, n: nat)
    requires Numbers(m, n)
    ensures n + 1 !in m
  {
  }

  lemma OthersAfterInsert(t: Tree, v: int, m: Records, n: nat, t': Tree, m': Records, found: bool)
    requires OthersErased(m, t) && Same(m, m', Ids(t)) && Added(t, v, n + 1, t') && (found <==> v in Vals(t))
    requires m'.Keys == m.Keys + (if found then {} else {n + 1})
    ensures OthersErased(m', t')
  {
    hide Ids, Vals, Exact, Bst, Unshared;
    forall id | id in m' && id !in Ids(t') ensures m'[id].status.Erased? {
      assert id in m'.Keys && id in m.Keys;
    }
  }

  lemma OutcomeOfDel(t: Tree, v: int, m: Records, n: nat, size: int, r: nat, t': Tree, m': Records, size': int, rule: TieRule)
    requires Keeps(m, n, size, t)
    requires EraseOutcome(TreeDelete(t, v, rule), Finds(t, v), Ids(t), m, size, r, t', m', size')
    ensures Keeps(m', n, size', t') && r == Root(t')
    ensures Step(SetState(t, n, size), Del(v), rule) == Some((SetState(t', n, size'), size != size'))
  {
    hide TreeDelete, Finds, Ids, Vals, Exact, Bst, Unshared, Spells;
    KeepsRepresents(m, n, size, t);
    DeleteRemoves(t, v, rule);
    DelRefines(SetState(t, n, size), Vals(t), v, rule);
    NumbersKeys(m, m', n);
    forall id | id in m' && id !in Ids(t') ensures m'[id].status.Erased? {
      assert id in m'.Keys && id in m.Keys;
    }
  }

  // ---------------------------------------------------------------- what is stored

  /** The store that holds exactly the nodes of `t`. */
  ghost function RecordsOf(t: Tree): Records {
    if t.Leaf? then map[]
    else RecordsOf(t.left) + RecordsOf(t.right)
         + map[t.id := Record(Root(t.left), Root(t.right), t.height, t.parent, t.val, Unchanged)]
  }

  lemma {:induction false} RecordsOfKeys(t: Tree)
    ensures RecordsOf(t).Keys == Ids(t)
    ensures forall id :: id in RecordsOf(t) ==> RecordsOf(t)[id].status.Unchanged?
  {
    if t.Node? {
      RecordsOfKeys(t.left);
      RecordsOfKeys(t.right);
    }
  }

  lemma {:induction false} RecordsOfSpells(t: Tree)
    requires Unshared(t)
    ensures RecordsOf(t).Keys == Ids(t) && Spells(RecordsOf(t), t)
    ensures forall id :: id in RecordsOf(t) ==> RecordsOf(t)[id].status.Unchanged?
  {
    RecordsOfKeys(t);
    if t.Node? {
      RecordsOfSpells(t.left);
      RecordsOfSpells(t.right);
      var (l, r, m) := (RecordsOf(t.left), RecordsOf(t.right), RecordsOf(t));
      forall id | id in Ids(t.left) ensures id in m && m[id] == l[id] {
        assert id !in r.Keys && id != t.id && id in l.Keys;
      }
      forall id | id in Ids(t.right) ensures id in m && m[id] == r[id] {
        assert id in r.Keys && id != t.id;
      }
      SpellsFrame(l, m, t.left);
      SpellsFrame(r, m, t.right);
    }
  }

  /** Records that spell `t` and carry no status agree with its stored form. */
  lemma {:induction false} SpelledRecords(m: Records, t: Tree)
    requires Spells(m, t) && Unshared(t)
    ensures forall id :: id in Ids(t) ==>
      id in m && id in RecordsOf(t) && m[id].(status := Unchanged) == RecordsOf(t)[id]
  {
    if t.Node? {
      SpelledRecords(m, t.left);
      SpelledRecords(m, t.right);
      RecordsOfSpells(t.left);
      RecordsOfSpells(t.right);
    }
  }

  /** Every cached record that differs from the stored one is marked. */
  ghost predicate Flagged(stored: Records, cache: Records) {
    forall id :: id in cache && cache[id].status.Unchanged? ==> id in stored && stored[id] == cache[id]
  }

  /** What the store holds after the cache was written back. */
  ghost function Saved(stored: Records, cache: Records): Records {
    map id | id in stored.Keys + cache.Keys && !(id in cache && cache[id].status.Erased?)
             && (id in stored || cache[id].status.Changed?)
      :: if id in cache && cache[id].status.Changed? then cache[id].(status := Unchanged) else stored[id]
  }

  /** The store `now`, when every cached node but those of `pending` has been written back. */
  ghost predicate PartlySaved(stored: Records, cache: Records, pending: set<nat>, now: Records) {
    forall id ::
      var after := if id in pending then stored else Saved(stored, cache);
      (id in now <==> id in after) && (id in now ==> now[id] == after[id])
  }

  /** One write or deletion, as the destructor does it for `id`. */
  ghost function WriteBack(cache: Records, now: Records, id: nat): Records
    requires id in cache
  {
    if cache[id].status.Changed? then now[id := cache[id].(status := Unchanged)]
    else if cache[id].status.Erased? then now - {id}
    else now
  }

  lemma NoneSaved(stored: Records, cache: Records)
    ensures PartlySaved(stored, cache, cache.Keys, stored)
  {
  }

  lemma SavedOne(stored: Records, cache: Records, pending: set<nat>, now: Records, id: nat)
    requires PartlySaved(stored, cache, pending, now) && id in pending && id in cache
    ensures PartlySaved(stored, cache, pending - {id}, WriteBack(cache, now, id))
  {
  }

  lemma AllSaved(stored: Records, cache: Records, now: Records)
    requires PartlySaved(stored, cache, {}, now)
    ensures now == Saved(stored, cache)
  {
  }

  /** With sound marks, writing back the cache leaves exactly the tree in the store, and nothing else. */
  lemma SavedIsTree(stored: Records, cache: Records, t: Tree)
    requires Flagged(stored, cache) && Spells(stored + cache, t) && Unshared(t)
    requires forall id :: id in stored ==> stored[id].status.Unchanged?
    requires OthersErased(stored + cache, t)
    ensures Saved(stored, cache) == RecordsOf(t)
  {
    hide Spells, Ids, RecordsOf, Unshared;
    var m := stored + cache;
    SpelledRecords(m, t);
    SpellsIds(m, t);
    RecordsOfSpells(t);
    assert Saved(stored, cache).Keys == Ids(t);
    forall id | id in Ids(t) ensures Saved(stored, cache)[id] == RecordsOf(t)[id] {
    }
  }
}
