/**
 The persistent set of src/store/set.h: nodes are records named by nonces, kept in
 a cache over a key-value store, rotated in place and written back when the set is
 destroyed.  Every method is tied to the tree functions of AvlTree.
 */
module NonceSet {
  import opened Wrappers
  import opened AvlTree
  import opened AvlSet
  import opened AvlLinks
  import opened AvlRuns
  import opened AvlOrder
  import opened NodeRecords

  /** The part of the storage that one set uses: its base key, and its base key followed by a nonce. */
  class NodeStore {
    var meta: Option<(nat, nat, nat)>
    var nodes: Records

    constructor ()
      ensures meta == None && nodes == map[]
    {
      meta, nodes := None, map[];
    }
  }

  lemma LeafRoot(t: Tree)
    requires Unshared(t) && Root(t) == 0
    ensures t.Leaf? && forall v :: !Finds(t, v)
  {
  }

  lemma EmptyIffLeaf(t: Tree)
    ensures t.Leaf? <==> Vals(t) == {}
  {
    if t.Node? {
      assert t.val in Vals(t);
    }
  }

  lemma NotZero(t: Tree)
    requires t.Node? && Unshared(t)
    ensures t.left.Node? ==> t.left.id != 0
    ensures t.right.Node? ==> t.right.id != 0
  {
  }

  /** Writing back a set with sound marks stores its tree. */
  lemma StoresSaved(stored: Records, cache: Records, t: Tree, n: nat, size: nat)
    requires Keeps(stored + cache, n, size, t) && Flagged(stored, cache) && n <= MAX_NONCE
    requires forall id :: id in stored ==> stored[id].status.Unchanged?
    ensures Stores(Some((n, Root(t), size)), Saved(stored, cache), t)
  {
    hide Spells, Ids, Vals, Exact, Bst, Unshared, RecordsOf;
    SavedIsTree(stored, cache, t);
    KeepsRepresents(stored + cache, n, size, t);
  }

  lemma FoundHasSize(t: Tree, v: int)
    requires Bst(t)
    ensures Finds(t, v) ==> |Vals(t)| > 0
  {
    FindsIffMember(t, v);
  }

  /** What a set that has just been opened keeps. */
  lemma LoadedKeeps(nodes: Records, cache: Records, t: Tree, n: nat)
    requires Sound(t) && nodes == RecordsOf(t) && cache == map[] && forall id :: id in Ids(t) ==> id <= n
    ensures Keeps(nodes + cache, n, |Vals(t)|, t) && Flagged(nodes, cache)
    ensures forall id :: id in nodes ==> nodes[id].status.Unchanged?
  {
    hide Spells, Ids, Vals, Exact, Bst, Unshared, RecordsOf;
    RecordsOfSpells(t);
    NonZero(t);
    assert nodes + cache == nodes;
  }

  /** The store holds the tree `t`: nothing for an empty store, or its metadata and exactly its nodes. */
  ghost predicate Stores(meta: Option<(nat, nat, nat)>, nodes: Records, t: Tree) {
    && Sound(t) && nodes == RecordsOf(t)
    && match meta
       case None => t.Leaf?
       case Some((n, root, size)) => n <= MAX_NONCE && root == Root(t) && size == |Vals(t)| && forall id :: id in Ids(t) ==> id <= n
  }

  class Set {
    const store: NodeStore
    const rule: TieRule
    var nonceNode: nat
    var nonceRoot: nat
    var setSize: nat
    var cache: Records

    /** The tree that the records spell. */
    ghost var tree: Tree

    /** src/store/set.h:145-159.  The store holds `t`, or nothing yet. */
    constructor (store: NodeStore, rule: TieRule, ghost t: Tree)
      requires Stores(store.meta, store.nodes, t)
      ensures Valid() && FlagsSound() && tree == t && this.store == store && this.rule == rule
      ensures store.meta.Some? ==> nonceNode == store.meta.value.0
      ensures store.meta.None? ==> nonceNode == 0
    {
      this.store, this.rule, cache, tree := store, rule, map[], t;
      var m := if store.meta.Some? then store.meta.value else (0, 0, 0);
      nonceNode, nonceRoot, setSize := m.0, m.1, m.2;
      new;
      LoadedKeeps(store.nodes, cache, t, nonceNode);
    }

    /** What holds between calls: the records spell a sound tree, and those outside it are marked as erased. */
    ghost predicate Valid()
      reads this, store
    {
      && Keeps(View(), nonceNode, setSize, tree)
      && nonceRoot == Root(tree) && Clean() && nonceNode <= MAX_NONCE
    }

    /** The state of the set as a run sees it. */
    ghost function State(): SetState
      reads this
    {
      SetState(tree, nonceNode, setSize)
    }

    /** The records as the set sees them: the cache over the store. */
    ghost function View(): Records
      reads this`cache, store
    {
      store.nodes + cache
    }

    /** Stored records carry no status. */
    ghost predicate Clean()
      reads store
    {
      forall id :: id in store.nodes ==> store.nodes[id].status.Unchanged?
    }

    /** Every cached record that differs from the stored one is marked. */
    ghost predicate FlagsSound()
      reads this`cache, store
    {
      Flagged(store.nodes, cache)
    }

    ghost predicate Numbered()
      reads this`cache, this`nonceNode, store
    {
      Numbers(View(), nonceNode)
    }

    /** The records reachable from `cur` spell out the sound tree `t`. */
    ghost predicate Holds(cur: nat, t: Tree)
      reads this`cache, store
    {
      cur == Root(t) && Sound(t) && Spells(View(), t)
    }

    /** src/store/set.h:294-310 */
    method GetNode(id: nat) returns (n: Option<Record>)
      modifies this`cache
      ensures View() == old(View())
      ensures n == if id in View() then Some(View()[id]) else None
      ensures n.Some? ==> id in cache
      ensures old(FlagsSound()) ==> FlagsSound()
    {
      if id in cache {
        n := Some(cache[id]);
      } else if id in store.nodes {
        cache := cache[id := store.nodes[id]];
        n := Some(cache[id]);
      } else {
        n := None;
      }
    }

    /** An assignment through the reference that getNode returned. */
    method SetNode(id: nat, r: Record)
      requires id in View()
      modifies this`cache
      ensures View() == old(View())[id := r]
      ensures cache == old(cache)[id := r]
      ensures old(FlagsSound()) && (!r.status.Unchanged? || r == old(View()[id])) ==> FlagsSound()
    {
      cache := cache[id := r];
    }

    /** src/store/set.h:323-328 */
    method GetHeight(id: nat) returns (h: nat)
      requires id == 0 || id in View()
      modifies this`cache
      ensures View() == old(View()) && h == HeightIn(View(), id)
      ensures old(FlagsSound()) ==> FlagsSound()
    {
      if id == 0 {
        return 0;
      }
      var n := GetNode(id);
      h := n.value.height;
    }

    /** src/store/set.h:342-373.  Throws when there is no left child. */
    method RightRotate(y: nat, ghost t: Tree) returns (ok: bool, x: nat)
      requires t.Node? && y == t.id && Unshared(t) && Spells(View(), t) && Numbered()
      modifies this`cache
      ensures ok <==> t.left.Node?
      ensures ok ==> RightReady(old(View()), t) && x == t.left.id && View() == RotatedRight(old(View()), t)
      ensures !ok ==> View() == old(View())
      ensures old(FlagsSound()) ==> FlagsSound()
    {
      var topNode := GetNode(y);
      x := topNode.value.left;
      var leftNode := GetNode(x);
      if leftNode.None? {
        assert t.left.Leaf? by { if t.left.Node? { assert t.left.id in View(); } }
        return false, 0;
      }
      assert 0 !in View();
      assert t.left.Node?;
      ghost var m := View();
      RightRotationWrites(m, t);
      ghost var rotated := RotatedRight(m, t);
      var t2 := leftNode.value.right;
      var h2 := GetHeight(t2);
      var hRight := GetHeight(topNode.value.right);
      var hLeft := GetHeight(leftNode.value.left);
      var topHeight := Max(h2, hRight) + 1;
      var lowered := topNode.value.(left := t2, parent := x, height := topHeight, status := Changed);
      var raised := leftNode.value.(right := y, parent := topNode.value.parent,
                                    height := Max(hLeft, topHeight) + 1, status := Changed);
      assert rotated == Written(m, y, lowered, x, raised, t2);
      SetNode(y, lowered);
      SetNode(x, raised);
      if t2 != 0 {
        var tmp := GetNode(t2);
        SetNode(t2, tmp.value.(parent := y, status := Changed));
      }
      assert View() == rotated;
      ok := true;
    }

    /** src/store/set.h:376-407.  Throws when there is no right child. */
    method LeftRotate(x: nat, ghost t: Tree) returns (ok: bool, y: nat)
      requires t.Node? && x == t.id && Unshared(t) && Spells(View(), t) && Numbered()
      modifies this`cache
      ensures ok <==> t.right.Node?
      ensures ok ==> LeftReady(old(View()), t) && y == t.right.id && View() == RotatedLeft(old(View()), t)
      ensures !ok ==> View() == old(View())
      ensures old(FlagsSound()) ==> FlagsSound()
    {
      var topNode := GetNode(x);
      y := topNode.value.right;
      var rightNode := GetNode(y);
      if rightNode.None? {
        assert t.right.Leaf? by { if t.right.Node? { assert t.right.id in View(); } }
        return false, 0;
      }
      assert 0 !in View();
      assert t.right.Node?;
      ghost var m := View();
      LeftRotationWrites(m, t);
      ghost var rotated := RotatedLeft(m, t);
      var t2 := rightNode.value.left;
      var h2 := GetHeight(t2);
      var hLeft := GetHeight(topNode.value.left);
      var hRight := GetHeight(rightNode.value.right);
      var topHeight := Max(hLeft, h2) + 1;
      var lowered := topNode.value.(right := t2, parent := y, height := topHeight, status := Changed);
      var raised := rightNode.value.(left := x, parent := topNode.value.parent,
                                     height := Max(topHeight, hRight) + 1, status := Changed);
      assert rotated == Written(m, x, lowered, y, raised, t2);
      SetNode(x, lowered);
      SetNode(y, raised);
      if t2 != 0 {
        var tmp := GetNode(t2);
        SetNode(t2, tmp.value.(parent := x, status := Changed));
      }
      assert View() == rotated;
      ok := true;
    }

    /** src/store/set.h:411-423 */
    method GetBalance(top: nat) returns (heavyLeft: bool, diff: nat)
      requires top != 0 ==> top in View()
      requires top != 0 ==> forall id :: id in {View()[top].left, View()[top].right} ==> id == 0 || id in View()
      modifies this`cache
      ensures View() == old(View())
      ensures top == 0 ==> heavyLeft && diff == 0
      ensures top != 0 ==> var n := View()[top]; var (l, r) := (HeightIn(View(), n.left), HeightIn(View(), n.right));
        heavyLeft == (l >= r) && diff == if l >= r then l - r else r - l
      ensures old(FlagsSound()) ==> FlagsSound()
    {
      if top == 0 {
        return true, 0;
      }
      var node := GetNode(top);
      var leftHeight := GetHeight(node.value.left);
      var rightHeight := GetHeight(node.value.right);
      if leftHeight >= rightHeight {
        return true, leftHeight - rightHeight;
      } else {
        return false, rightHeight - leftHeight;
      }
    }

    /** `getBalance` of the root of a tree. */
    method BalanceOf(top: nat, ghost t: Tree) returns (heavyLeft: bool, diff: nat)
      requires t.Node? && top == t.id && Unshared(t) && Spells(View(), t)
      modifies this`cache
      ensures View() == old(View())
      ensures heavyLeft == (H(t.left) >= H(t.right))
      ensures diff == if heavyLeft then H(t.left) - H(t.right) else H(t.right) - H(t.left)
      ensures old(FlagsSound()) ==> FlagsSound()
    {
      HeightInSpelled(View(), t.left);
      HeightInSpelled(View(), t.right);
      assert top != 0;
      heavyLeft, diff := GetBalance(top);
    }

    /** src/store/set.h:426-432.  Sets no flag. */
    method UpdateParent(parent: nat, child: nat)
      requires child == 0 || child in View()
      modifies this`cache
      ensures View() == if child == 0 then old(View()) else old(View())[child := old(View())[child].(parent := parent)]
      ensures old(FlagsSound()) && (child != 0 ==> !old(View()[child]).status.Unchanged? || old(View()[child]).parent == parent)
        ==> FlagsSound()
    {
      if child == 0 {
        return;
      }
      var childNode := GetNode(child);
      SetNode(child, childNode.value.(parent := parent));
    }

    /** `currentNode.left = leftRotate(currentNode.left)` */
    method LeftRotateBelow(cur: nat, ghost t: Tree) returns (ok: bool)
      requires t.Node? && t.left.Node? && cur == t.id && Unshared(t) && Spells(View(), t) && Numbered()
      requires View()[cur].status.Changed?
      modifies this`cache
      ensures ok <==> t.left.right.Node?
      ensures !ok ==> View() == old(View())
      ensures ok ==> Spells(View(), t.(left := RotateLeft(t.left))) && View()[cur].status.Changed?
      ensures View().Keys == old(View().Keys) && Same(old(View()), View(), Ids(t))
      ensures old(FlagsSound()) ==> FlagsSound()
    {
      hide Spells, Ids, Vals, Exact, Bst, Unshared, Linked, View, FlagsSound;
      ghost var m := View();
      ChildRecords(m, t);
      var node := GetNode(cur);
      var l;
      ok, l := LeftRotate(node.value.left, t.left);
      if ok {
        SpellsRotatedLeft(m, t.left);
        RotateLeftKeeps(t.left);
        SpellsWithLeft(m, View(), t, RotateLeft(t.left), t.height);
        node := GetNode(cur);
        SetNode(cur, node.value.(left := l));
      }
    }

    method RightRotateBelow(cur: nat, ghost t: Tree) returns (ok: bool)
      requires t.Node? && t.right.Node? && cur == t.id && Unshared(t) && Spells(View(), t) && Numbered()
      requires View()[cur].status.Changed?
      modifies this`cache
      ensures ok <==> t.right.left.Node?
      ensures !ok ==> View() == old(View())
      ensures ok ==> Spells(View(), t.(right := RotateRight(t.right))) && View()[cur].status.Changed?
      ensures View().Keys == old(View().Keys) && Same(old(View()), View(), Ids(t))
      ensures old(FlagsSound()) ==> FlagsSound()
    {
      hide Spells, Ids, Vals, Exact, Bst, Unshared, Linked, View, FlagsSound;
      ghost var m := View();
      ChildRecords(m, t);
      var node := GetNode(cur);
      var r;
      ok, r := RightRotate(node.value.right, t.right);
      if ok {
        SpellsRotatedRight(m, t.right);
        RotateRightKeeps(t.right);
        SpellsWithRight(m, View(), t, RotateRight(t.right), t.height);
        node := GetNode(cur);
        SetNode(cur, node.value.(right := r));
      }
    }

    /** src/store/set.h:459-470 */
    method LiftLeft(cur: nat, v: int, ghost t: Tree) returns (ok: bool, r: nat, ghost t': Tree)
      requires t.Node? && cur == t.id && Unshared(t) && Spells(View(), t) && Numbered()
      requires View()[cur].status.Changed? && H(t.left) > H(t.right) + 1
      modifies this`cache
      ensures ok <==> RebalanceInsert(t, v).Some?
      ensures if ok then RebalanceInsert(t, v) == Some(t') && r == Root(t') else t' == t
      ensures Spells(View(), t')
      ensures View().Keys == old(View().Keys) && Same(old(View()), View(), Ids(t))
      ensures old(FlagsSound()) ==> FlagsSound()
    {
      hide Spells, Ids, Vals, Exact, Bst, Unshared, Linked, View, FlagsSound;
      ok, r, t' := true, cur, t;
      ChildRecords(View(), t);
      var node := GetNode(cur);
      var leftNode := GetNode(node.value.left);
      if v < leftNode.value.val {
        SpellsRotatedRight(View(), t);
        ok, r := RightRotate(cur, t);
        t' := RotateRight(t);
      } else if v > leftNode.value.val {
        ok := LeftRotateBelow(cur, t);
        if ok {
          ghost var u := t.(left := RotateLeft(t.left));
          RotateLeftBelow(t);
          SpellsRotatedRight(View(), u);
          ok, r := RightRotate(cur, u);
          t' := RotateRight(u);
        }
      }
    }

    /** src/store/set.h:473-482 */
    method LiftRight(cur: nat, v: int, ghost t: Tree) returns (ok: bool, r: nat, ghost t': Tree)
      requires t.Node? && cur == t.id && Unshared(t) && Spells(View(), t) && Numbered()
      requires View()[cur].status.Changed? && H(t.right) > H(t.left) + 1
      modifies this`cache
      ensures ok <==> RebalanceInsert(t, v).Some?
      ensures if ok then RebalanceInsert(t, v) == Some(t') && r == Root(t') else t' == t
      ensures Spells(View(), t')
      ensures View().Keys == old(View().Keys) && Same(old(View()), View(), Ids(t))
      ensures old(FlagsSound()) ==> FlagsSound()
    {
      hide Spells, Ids, Vals, Exact, Bst, Unshared, Linked, View, FlagsSound;
      ok, r, t' := true, cur, t;
      ChildRecords(View(), t);
      var node := GetNode(cur);
      var rightNode := GetNode(node.value.right);
      if v > rightNode.value.val {
        SpellsRotatedLeft(View(), t);
        ok, r := LeftRotate(cur, t);
        t' := RotateLeft(t);
      } else if v < rightNode.value.val {
        ok := RightRotateBelow(cur, t);
        if ok {
          ghost var u := t.(right := RotateRight(t.right));
          RotateRightBelow(t);
          SpellsRotatedLeft(View(), u);
          ok, r := LeftRotate(cur, u);
          t' := RotateLeft(u);
        }
      }
    }

    /** src/store/set.h:456-484: the rotation at the end of an insertion. */
    method RebalanceAfterInsert(cur: nat, v: int, ghost t: Tree) returns (ok: bool, r: nat, ghost t': Tree)
      requires t.Node? && cur == t.id && Unshared(t) && Spells(View(), t) && Numbered()
      requires View()[cur].status.Changed?
      modifies this`cache
      ensures ok <==> RebalanceInsert(t, v).Some?
      ensures if ok then RebalanceInsert(t, v) == Some(t') && r == Root(t') else t' == t
      ensures Spells(View(), t')
      ensures View().Keys == old(View().Keys) && Same(old(View()), View(), Ids(t))
      ensures old(FlagsSound()) ==> FlagsSound()
    {
      ok, r, t' := true, cur, t;
      var heavyLeft, diff := BalanceOf(cur, t);
      if heavyLeft && diff > 1 {
        ok, r, t' := LiftLeft(cur, v, t);
      } else if !heavyLeft && diff > 1 {
        ok, r, t' := LiftRight(cur, v, t);
      }
    }

    /** Hang the subtree `l` of the node `cur` on its left and recompute the height of `cur`. */
    method AttachLeft(cur: nat, l: nat, ghost m: Records, ghost t: Tree, ghost sub: Tree)
      requires t.Node? && cur == t.id && Spells(m, t) && Unshared(t) && Unshared(sub) && Exact(sub)
      requires l == Root(sub) && Spells(View(), sub) && cur !in Ids(sub)
      requires Same(m, View(), Ids(t.left)) && Ids(sub) !! Ids(t.right)
      modifies this`cache
      ensures cur in m && View().Keys == old(View().Keys) && Same(m, View(), Ids(t.left) + Ids(sub) + {cur})
      ensures Same(old(View()), View(), Ids(sub) + {cur})
      ensures Spells(View(), Refresh(t.(left := SetParent(sub, t.id)))) && View()[cur].status.Changed?
      ensures old(FlagsSound()) && (l != 0 ==> !old(View()[l]).status.Unchanged? || old(View()[l]).parent == cur)
        ==> FlagsSound()
    {
      hide Spells, Ids, Vals, Bst, Linked, Unshared, View, FlagsSound;
      RootNotZero(View(), sub);
      ChildRecords(m, t);
      ghost var u := Refresh(t.(left := SetParent(sub, t.id)));
      ghost var m2 := if sub.Leaf? then View() else View()[sub.id := View()[sub.id].(parent := t.id)];
      SpellsGraftedLeft(m, View(), t, sub, m2, u.height);
      UpdateParent(cur, l);
      assert View() == m2;
      HeightInSpelled(m2, SetParent(sub, t.id)) by { SetParentKeeps(sub, t.id); }
      HeightInSpelled(m2, t.right);
      var node := GetNode(cur);
      var leftHeight := GetHeight(l);
      var rightHeight := GetHeight(node.value.right);
      SetNode(cur, node.value.(left := l, height := 1 + Max(leftHeight, rightHeight), status := Changed));
    }

    /** Hang the subtree `r` of the node `cur` on its right and recompute the height of `cur`. */
    method AttachRight(cur: nat, r: nat, ghost m: Records, ghost t: Tree, ghost sub: Tree)
      requires t.Node? && cur == t.id && Spells(m, t) && Unshared(t) && Unshared(sub) && Exact(sub)
      requires r == Root(sub) && Spells(View(), sub) && cur !in Ids(sub)
      requires Same(m, View(), Ids(t.right)) && Ids(sub) !! Ids(t.left)
      modifies this`cache
      ensures cur in m && View().Keys == old(View().Keys) && Same(m, View(), Ids(t.right) + Ids(sub) + {cur})
      ensures Same(old(View()), View(), Ids(sub) + {cur})
      ensures Spells(View(), Refresh(t.(right := SetParent(sub, t.id)))) && View()[cur].status.Changed?
      ensures old(FlagsSound()) && (r != 0 ==> !old(View()[r]).status.Unchanged? || old(View()[r]).parent == cur)
        ==> FlagsSound()
    {
      hide Spells, Ids, Vals, Bst, Linked, Unshared, View, FlagsSound;
      RootNotZero(View(), sub);
      ChildRecords(m, t);
      ghost var u := Refresh(t.(right := SetParent(sub, t.id)));
      ghost var m2 := if sub.Leaf? then View() else View()[sub.id := View()[sub.id].(parent := t.id)];
      SpellsGraftedRight(m, View(), t, sub, m2, u.height);
      UpdateParent(cur, r);
      assert View() == m2;
      HeightInSpelled(m2, SetParent(sub, t.id)) by { SetParentKeeps(sub, t.id); }
      HeightInSpelled(m2, t.left);
      var node := GetNode(cur);
      var leftHeight := GetHeight(node.value.left);
      var rightHeight := GetHeight(r);
      SetNode(cur, node.value.(right := r, height := 1 + Max(leftHeight, rightHeight), status := Changed));
    }

    /** src/store/set.h:314-320 */
    method NewNode(v: int) returns (r: nat)
      requires Numbered()
      modifies this`cache, this`nonceNode, this`setSize
      ensures r == nonceNode == old(nonceNode) + 1 && setSize == old(setSize) + 1
      ensures View() == old(View())[r := Record(0, 0, 1, 0, v, Changed)]
      ensures old(FlagsSound()) ==> FlagsSound()
    {
      nonceNode := nonceNode + 1;
      setSize := setSize + 1;
      cache := cache[nonceNode := Record(0, 0, 1, 0, v, Changed)];
      r := nonceNode;
    }

    /** src/store/set.h:435-485.  Throws when a rotation looks up nonce 0. */
    method InsertNode(cur: nat, v: int, ghost t: Tree) returns (ok: bool, r: nat, ghost t': Tree)
      requires Holds(cur, t) && Numbered() && nonceNode < MAX_NONCE
      modifies this`cache, this`nonceNode, this`setSize
      ensures Outcome(TreeInsert(t, v, old(nonceNode) + 1), Interrupted(t, v, old(nonceNode) + 1), Finds(t, v), Ids(t),
                      old(View()), old(nonceNode), old(setSize), ok, r, t', View(), nonceNode, setSize)
      ensures ok && old(FlagsSound()) && LinkedBelow(t) ==> FlagsSound()
      ensures ok && t.Leaf? ==> r in View() && View()[r].status.Changed?
      decreases t, 1
    {
      hide Spells, Ids, Vals, TreeInsert, RebalanceInsert, Interrupted, Exact, Bst, Unshared, Linked, Finds, View, FlagsSound, Same;
      if cur == 0 {
        assert t.Leaf? by { NonZero(t); RootInIds(t); }
        OutcomeOfNewNode(v, View(), nonceNode, setSize);
        ok, t' := true, Node(nonceNode + 1, 1, 0, Leaf, v, Leaf);
        r := NewNode(v);
        return;
      }
      SpellsTop(View(), t);
      var node := GetNode(cur);
      if v < node.value.val {
        ok, r, t' := InsertLeft(cur, v, t);
      } else if v > node.value.val {
        ok, r, t' := InsertRight(cur, v, t);
      } else {
        OutcomeOfPresent(t, View(), nonceNode, setSize);
        ok, r, t' := true, cur, t;
      }
    }

    /** src/store/set.h:443-447 and 449-484, once the insertion on the left has returned. */
    method FinishLeft(cur: nat, v: int, child: nat, ghost m: Records, ghost n: nat, ghost size: nat, ghost t: Tree, ghost sub: Tree)
      returns (ok: bool, r: nat, ghost t': Tree)
      requires t.Node? && cur == t.id && Sound(t) && Spells(m, t) && v < t.val && n + 1 !in m && n + 1 !in Ids(t)
      requires TreeInsert(t.left, v, n + 1) == Some(sub)
      requires Outcome(Some(sub), Interrupted(t.left, v, n + 1), Finds(t.left, v), Ids(t.left),
                       m, n, size, true, child, sub, View(), nonceNode, setSize)
      modifies this`cache
      ensures Outcome(TreeInsert(t, v, n + 1), Interrupted(t, v, n + 1), Finds(t, v), Ids(t),
                      m, n, size, ok, r, t', View(), nonceNode, setSize)
      ensures old(FlagsSound()) && LinkedBelow(t) && (t.left.Leaf? ==> child in old(View()) && old(View())[child].status.Changed?)
        ==> FlagsSound()
    {
      hide Spells, Ids, Vals, TreeInsert, RebalanceInsert, Interrupted, Exact, Bst, Unshared, Linked, Finds, View, FlagsSound, Same;
      ghost var (m1, n1, size1) := (View(), nonceNode, setSize);
      SpellsTop(m, t);
      InsertTreesLeft(t, v, n + 1, sub);
      if LinkedBelow(t) {
        InsertedParent(t, v, n + 1, t.left, sub, m1);
      }
      AttachLeft(cur, child, m, t, sub);
      ghost var (m2, u) := (View(), Refresh(t.(left := SetParent(sub, t.id))));
      ok, r, t' := RebalanceAfterInsert(cur, v, u);
      OutcomeThrough(Finds(t.left, v), Ids(t.left), m, n, size, child, sub, m1, n1, size1, Ids(sub), cur, m2,
                     RebalanceInsert(u, v), u, ok, r, t', View(), Ids(u), Ids(t), Interrupted(t.left, v, n + 1));
    }

    /** src/store/set.h:443-444 and 452-484 */
    method InsertLeft(cur: nat, v: int, ghost t: Tree) returns (ok: bool, r: nat, ghost t': Tree)
      requires Holds(cur, t) && Numbered() && nonceNode < MAX_NONCE && t.Node? && v < t.val
      modifies this`cache, this`nonceNode, this`setSize
      ensures Outcome(TreeInsert(t, v, old(nonceNode) + 1), Interrupted(t, v, old(nonceNode) + 1), Finds(t, v), Ids(t),
                      old(View()), old(nonceNode), old(setSize), ok, r, t', View(), nonceNode, setSize)
      ensures ok && old(FlagsSound()) && LinkedBelow(t) ==> FlagsSound()
      decreases t, 0
    {
      hide Spells, Ids, Vals, TreeInsert, RebalanceInsert, Interrupted, Exact, Bst, Unshared, Linked, Finds, View, FlagsSound, Same, Outcome;
      t' := Leaf;
      ghost var (m, n, size) := (View(), nonceNode, setSize);
      SpellsTop(m, t);
      assert n + 1 !in m;
      var node := GetNode(cur);
      var child;
      ghost var sub;
      if LinkedBelow(t) {
        LinkedBelowChildren(t);
      }
      ok, child, sub := InsertNode(node.value.left, v, t.left);
      OutcomeFacts(TreeInsert(t.left, v, n + 1), Interrupted(t.left, v, n + 1), Finds(t.left, v), Ids(t.left),
                   m, n, size, ok, child, sub, View(), nonceNode, setSize);
      if !ok {
        InsertFailsOnLeft(t, v, m, n, size, child, 0, sub, View(), nonceNode, setSize);
        return false, 0, t.(left := sub);
      }
      ok, r, t' := FinishLeft(cur, v, child, m, n, size, t, sub);
    }

    /** src/store/set.h:443-447 and 449-484, once the insertion on the right has returned. */
    method FinishRight(cur: nat, v: int, child: nat, ghost m: Records, ghost n: nat, ghost size: nat, ghost t: Tree, ghost sub: Tree)
      returns (ok: bool, r: nat, ghost t': Tree)
      requires t.Node? && cur == t.id && Sound(t) && Spells(m, t) && v > t.val && n + 1 !in m && n + 1 !in Ids(t)
      requires TreeInsert(t.right, v, n + 1) == Some(sub)
      requires Outcome(Some(sub), Interrupted(t.right, v, n + 1), Finds(t.right, v), Ids(t.right),
                       m, n, size, true, child, sub, View(), nonceNode, setSize)
      modifies this`cache
      ensures Outcome(TreeInsert(t, v, n + 1), Interrupted(t, v, n + 1), Finds(t, v), Ids(t),
                      m, n, size, ok, r, t', View(), nonceNode, setSize)
      ensures old(FlagsSound()) && LinkedBelow(t) && (t.right.Leaf? ==> child in old(View()) && old(View())[child].status.Changed?)
        ==> FlagsSound()
    {
      hide Spells, Ids, Vals, TreeInsert, RebalanceInsert, Interrupted, Exact, Bst, Unshared, Linked, Finds, View, FlagsSound, Same;
      ghost var (m1, n1, size1) := (View(), nonceNode, setSize);
      SpellsTop(m, t);
      InsertTreesRight(t, v, n + 1, sub);
      if LinkedBelow(t) {
        InsertedParent(t, v, n + 1, t.right, sub, m1);
      }
      AttachRight(cur, child, m, t, sub);
      ghost var (m2, u) := (View(), Refresh(t.(right := SetParent(sub, t.id))));
      ok, r, t' := RebalanceAfterInsert(cur, v, u);
      OutcomeThrough(Finds(t.right, v), Ids(t.right), m, n, size, child, sub, m1, n1, size1, Ids(sub), cur, m2,
                     RebalanceInsert(u, v), u, ok, r, t', View(), Ids(u), Ids(t), Interrupted(t.right, v, n + 1));
    }

    /** src/store/set.h:446-447 and 452-484 */
    method InsertRight(cur: nat, v: int, ghost t: Tree) returns (ok: bool, r: nat, ghost t': Tree)
      requires Holds(cur, t) && Numbered() && nonceNode < MAX_NONCE && t.Node? && v > t.val
      modifies this`cache, this`nonceNode, this`setSize
      ensures Outcome(TreeInsert(t, v, old(nonceNode) + 1), Interrupted(t, v, old(nonceNode) + 1), Finds(t, v), Ids(t),
                      old(View()), old(nonceNode), old(setSize), ok, r, t', View(), nonceNode, setSize)
      ensures ok && old(FlagsSound()) && LinkedBelow(t) ==> FlagsSound()
      decreases t, 0
    {
      hide Spells, Ids, Vals, TreeInsert, RebalanceInsert, Interrupted, Exact, Bst, Unshared, Linked, Finds, View, FlagsSound, Same, Outcome;
      t' := Leaf;
      ghost var (m, n, size) := (View(), nonceNode, setSize);
      SpellsTop(m, t);
      assert n + 1 !in m;
      var node := GetNode(cur);
      var child;
      ghost var sub;
      if LinkedBelow(t) {
        LinkedBelowChildren(t);
      }
      ok, child, sub := InsertNode(node.value.right, v, t.right);
      OutcomeFacts(TreeInsert(t.right, v, n + 1), Interrupted(t.right, v, n + 1), Finds(t.right, v), Ids(t.right),
                   m, n, size, ok, child, sub, View(), nonceNode, setSize);
      if !ok {
        InsertFailsOnRight(t, v, m, n, size, child, 0, sub, View(), nonceNode, setSize);
        return false, 0, t.(right := sub);
      }
      ok, r, t' := FinishRight(cur, v, child, m, n, size, t, sub);
    }

    /** src/store/set.h:331-339 */
    method MinValueNode(root: nat, ghost t: Tree) returns (id: nat)
      requires t.Node? && root == t.id && Spells(View(), t) && Unshared(t)
      modifies this`cache
      ensures View() == old(View())
      ensures id in View() && View()[id].val == Min(t)
      ensures old(FlagsSound()) ==> FlagsSound()
    {
      id := root;
      ghost var s := t;
      while true
        invariant s.Node? && id == s.id && Spells(View(), s) && Unshared(s) && Min(s) == Min(t)
        invariant View() == old(View())
        invariant old(FlagsSound()) ==> FlagsSound()
        decreases s
      {
        var currentNode := GetNode(id);
        if currentNode.value.left == 0 {
          return;
        }
        id := currentNode.value.left;
        s := s.left;
      }
    }

    /** src/store/set.h:540-548 */
    method SettleLeft(cur: nat, ghost t: Tree) returns (r: nat, ghost t': Tree)
      requires t.Node? && cur == t.id && Unshared(t) && Exact(t) && Spells(View(), t) && Numbered()
      requires View()[cur].status.Changed? && H(t.left) > H(t.right) + 1
      modifies this`cache
      ensures t' == RebalanceDelete(t, rule) && r == Root(t') && Spells(View(), t')
      ensures View().Keys == old(View().Keys) && Same(old(View()), View(), Ids(t))
      ensures t'.Node? && r in View() && View()[r].status.Changed?
      ensures old(FlagsSound()) ==> FlagsSound()
    {
      hide Spells, Ids, Vals, Bst, Unshared, Linked, View, FlagsSound;
      ChildRecords(View(), t);
      var node := GetNode(cur);
      assert Exact(t.left);
      var heavyLeft, diff := BalanceOf(node.value.left, t.left);
      var ok;
      if heavyLeft {
        SpellsRotatedRight(View(), t);
        ok, r := RightRotate(cur, t);
        t' := RotateRight(t);
      } else {
        ok := LeftRotateBelow(cur, t);
        assert ok;
        ghost var u := t.(left := RotateLeft(t.left));
        RotateLeftBelow(t);
        SpellsRotatedRight(View(), u);
        ok, r := RightRotate(cur, u);
        t' := RotateRight(u);
      }
      assert ok;
    }

    /** src/store/set.h:550-558, with the tie rule of this set. */
    method SettleRight(cur: nat, ghost t: Tree) returns (r: nat, ghost t': Tree)
      requires t.Node? && cur == t.id && Unshared(t) && Exact(t) && Spells(View(), t) && Numbered()
      requires View()[cur].status.Changed? && H(t.right) > H(t.left) + 1
      modifies this`cache
      ensures t' == RebalanceDelete(t, rule) && r == Root(t') && Spells(View(), t')
      ensures View().Keys == old(View().Keys) && Same(old(View()), View(), Ids(t))
      ensures t'.Node? && r in View() && View()[r].status.Changed?
      ensures old(FlagsSound()) ==> FlagsSound()
    {
      hide Spells, Ids, Vals, Bst, Unshared, Linked, View, FlagsSound;
      ChildRecords(View(), t);
      var node := GetNode(cur);
      assert Exact(t.right);
      var heavyLeft, diff := BalanceOf(node.value.right, t.right);
      var ok;
      if !heavyLeft || (rule.TieToSingle? && diff == 0) {
        SpellsRotatedLeft(View(), t);
        ok, r := LeftRotate(cur, t);
        t' := RotateLeft(t);
      } else {
        ok := RightRotateBelow(cur, t);
        assert ok;
        ghost var u := t.(right := RotateRight(t.right));
        RotateRightBelow(t);
        SpellsRotatedLeft(View(), u);
        ok, r := LeftRotate(cur, u);
        t' := RotateLeft(u);
      }
      assert ok;
    }

    /** src/store/set.h:537-560: the rotation at the end of an erase. */
    method RebalanceAfterDelete(cur: nat, ghost t: Tree) returns (r: nat, ghost t': Tree)
      requires t.Node? && cur == t.id && Unshared(t) && Exact(t) && Spells(View(), t) && Numbered()
      requires View()[cur].status.Changed?
      modifies this`cache
      ensures t' == RebalanceDelete(t, rule) && r == Root(t') && Spells(View(), t')
      ensures View().Keys == old(View().Keys) && Same(old(View()), View(), Ids(t))
      ensures t'.Node? && r in View() && View()[r].status.Changed?
      ensures old(FlagsSound()) ==> FlagsSound()
    {
      r, t' := cur, t;
      var heavyLeft, diff := BalanceOf(cur, t);
      if heavyLeft && diff > 1 {
        r, t' := SettleLeft(cur, t);
      } else if !heavyLeft && diff > 1 {
        r, t' := SettleRight(cur, t);
      }
    }

    /** src/store/set.h:489-561.  Never throws. */
    method DeleteNode(cur: nat, v: int, ghost t: Tree) returns (r: nat, ghost t': Tree)
      requires Holds(cur, t) && Numbered() && (Finds(t, v) ==> setSize > 0)
      modifies this`cache, this`setSize
      ensures EraseOutcome(TreeDelete(t, v, rule), Finds(t, v), Ids(t), old(View()), old(setSize), r, t', View(), setSize)
      ensures old(FlagsSound()) ==> FlagsSound()
      decreases t, 1
    {
      hide Spells, Ids, Vals, TreeDelete, RebalanceDelete, Exact, Bst, Unshared, Linked, Finds, View, FlagsSound, Same, Numbers;
      if cur == 0 {
        assert t.Leaf? by { NonZero(t); RootInIds(t); }
        EraseNothing(v, rule, View(), setSize);
        return 0, Leaf;
      }
      SpellsTop(View(), t);
      FindsBelow(t, v);
      LeafRoots(t);
      var node := GetNode(cur);
      if v < node.value.val {
        r, t' := DeleteLeft(cur, v, t);
      } else if v > node.value.val {
        r, t' := DeleteRight(cur, v, t);
      } else if node.value.left == 0 || node.value.right == 0 {
        r, t' := SpliceOut(cur, t);
      } else {
        r, t' := ReplaceByMin(cur, t);
      }
    }

    /** src/store/set.h:495-497 and 533-560 */
    method DeleteLeft(cur: nat, v: int, ghost t: Tree) returns (r: nat, ghost t': Tree)
      requires Holds(cur, t) && Numbered() && (Finds(t, v) ==> setSize > 0) && t.Node? && v < t.val
      modifies this`cache, this`setSize
      ensures EraseOutcome(TreeDelete(t, v, rule), Finds(t, v), Ids(t), old(View()), old(setSize), r, t', View(), setSize)
      ensures old(FlagsSound()) ==> FlagsSound()
      decreases t, 0
    {
      hide Spells, Ids, Vals, TreeDelete, RebalanceDelete, Exact, Bst, Unshared, Linked, Finds, View, FlagsSound, Same, Numbers;
      ghost var (m, size) := (View(), setSize);
      SpellsTop(m, t);
      FindsBelow(t, v);
      var node := GetNode(cur);
      var child;
      ghost var sub;
      child, sub := DeleteNode(node.value.left, v, t.left);
      ghost var (m1, size1) := (View(), setSize);
      DeleteTreesLeft(t, v, rule, sub);
      AttachLeft(cur, child, m, t, sub);
      ghost var (m2, u) := (View(), Refresh(t.(left := SetParent(sub, t.id))));
      NumbersKeys(m, m2, nonceNode);
      r, t' := RebalanceAfterDelete(cur, u);
      EraseThrough(Finds(t, v), Ids(t.left), m, size, child, sub, m1, size1, cur, Ids(t.right), m2, r, t', View());
    }

    /** src/store/set.h:498-500 and 533-560 */
    method DeleteRight(cur: nat, v: int, ghost t: Tree) returns (r: nat, ghost t': Tree)
      requires Holds(cur, t) && Numbered() && (Finds(t, v) ==> setSize > 0) && t.Node? && v > t.val
      modifies this`cache, this`setSize
      ensures EraseOutcome(TreeDelete(t, v, rule), Finds(t, v), Ids(t), old(View()), old(setSize), r, t', View(), setSize)
      ensures old(FlagsSound()) ==> FlagsSound()
      decreases t, 0
    {
      hide Spells, Ids, Vals, TreeDelete, RebalanceDelete, Exact, Bst, Unshared, Linked, Finds, View, FlagsSound, Same, Numbers;
      ghost var (m, size) := (View(), setSize);
      SpellsTop(m, t);
      FindsBelow(t, v);
      var node := GetNode(cur);
      var child;
      ghost var sub;
      child, sub := DeleteNode(node.value.right, v, t.right);
      ghost var (m1, size1) := (View(), setSize);
      DeleteTreesRight(t, v, rule, sub);
      AttachRight(cur, child, m, t, sub);
      ghost var (m2, u) := (View(), Refresh(t.(right := SetParent(sub, t.id))));
      NumbersKeys(m, m2, nonceNode);
      r, t' := RebalanceAfterDelete(cur, u);
      EraseThrough(Finds(t, v), Ids(t.right), m, size, child, sub, m1, size1, cur, Ids(t.left), m2, r, t', View());
    }

    /** src/store/set.h:502-521 and 530-560 */
    method SpliceOut(cur: nat, ghost t: Tree) returns (r: nat, ghost t': Tree)
      requires Holds(cur, t) && Numbered() && setSize > 0 && t.Node? && (t.left.Leaf? || t.right.Leaf?)
      modifies this`cache, this`setSize
      ensures EraseOutcome(TreeDelete(t, t.val, rule), Finds(t, t.val), Ids(t), old(View()), old(setSize),
                           r, t', View(), setSize)
      ensures old(FlagsSound()) ==> FlagsSound()
    {
      hide Spells, Ids, Vals, TreeDelete, RebalanceDelete, Exact, Bst, Unshared, Linked, Finds, View, FlagsSound, Numbers;
      ghost var (m, size) := (View(), setSize);
      SpellsTop(m, t);
      LeafRoots(t);
      var currentNode := GetNode(cur);
      var child := if currentNode.value.left != 0 then currentNode.value.left else currentNode.value.right;
      setSize := setSize - 1;
      if child == 0 {
        ErasedLeaf(t, t.val, rule, m, size);
        SetNode(cur, currentNode.value.(status := Erased));
        return 0, Leaf;
      }
      ghost var (c, u) := (OnlyChild(t), Refresh(Splice(t)));
      SpellsSpliced(m, t, c, u);
      var childNode := GetNode(child);
      var leftHeight := GetHeight(childNode.value.left);
      var rightHeight := GetHeight(childNode.value.right);
      SetNode(cur, childNode.value.(parent := currentNode.value.parent,
                                    height := 1 + Max(leftHeight, rightHeight), status := Changed));
      SetNode(child, childNode.value.(status := Erased));
      assert View() == Spliced(m, t, u.height);
      NumbersKeys(m, View(), nonceNode);
      r, t' := RebalanceAfterDelete(cur, u);
      EraseBySplice(t, rule, m, size, r, t', View());
    }

    /** src/store/set.h:523-526 and 533-560 */
    method ReplaceByMin(cur: nat, ghost t: Tree) returns (r: nat, ghost t': Tree)
      requires Holds(cur, t) && Numbered() && setSize > 0 && t.Node? && t.left.Node? && t.right.Node?
      modifies this`cache, this`setSize
      ensures EraseOutcome(TreeDelete(t, t.val, rule), Finds(t, t.val), Ids(t), old(View()), old(setSize),
                           r, t', View(), setSize)
      ensures old(FlagsSound()) ==> FlagsSound()
      decreases t, 0
    {
      hide Spells, Ids, Vals, TreeDelete, RebalanceDelete, Exact, Bst, Unshared, Linked, Finds, View, FlagsSound, Same, Numbers;
      ghost var (m, size) := (View(), setSize);
      SpellsTop(m, t);
      FindsBelow(t, t.val);
      var node := GetNode(cur);
      var minId := MinValueNode(node.value.right, t.right);
      var minNode := GetNode(minId);
      var least := minNode.value.val;
      var child;
      ghost var sub;
      child, sub := DeleteNode(node.value.right, least, t.right);
      ghost var (m1, size1) := (View(), setSize);
      FindsMin(t.right);
      MinTrees(t, rule, sub);
      SpellsWithMin(m, m1, t, least, sub);
      node := GetNode(cur);
      var leftHeight := GetHeight(node.value.left);
      var rightHeight := GetHeight(child);
      SetNode(cur, node.value.(val := least, right := child,
                               height := 1 + Max(leftHeight, rightHeight), status := Changed));
      ghost var (m2, u) := (View(), Refresh(t.(val := least, right := sub)));
      NumbersKeys(m, m2, nonceNode);
      r, t' := RebalanceAfterDelete(cur, u);
      EraseThrough(true, Ids(t.right), m, size, child, sub, m1, size1, cur, Ids(t.left), m2, r, t', View());
    }

    /** `getNode` of a node of the tree, which changes nothing that can be seen. */
    method Look(id: nat) returns (n: Record)
      requires Valid() && id in View()
      modifies this`cache
      ensures Valid() && State() == old(State()) && View() == old(View()) && n == View()[id]
      ensures old(FlagsSound()) ==> FlagsSound()
    {
      var found := GetNode(id);
      n := found.value;
    }

    // -------------------------------------------------------------- the public calls

    /**
     src/store/set.h:182-187.  Acts as the call `Add(v)` of a run; `ok` is false when it throws.  After a
     throw the records under the old root spell a search tree that holds `v`, and the size counts it, but
     heights above the failed rotation may be stale.
     */
    method Insert(v: int) returns (ok: bool, changed: bool)
      requires Valid() && nonceNode < MAX_NONCE
      modifies this
      ensures ok <==> Step(old(State()), Add(v), rule).Some?
      ensures ok ==> Valid() && (State(), changed) == Step(old(State()), Add(v), rule).value
      ensures ok && old(FlagsSound()) && LinkedBelow(old(tree)) ==> FlagsSound()
      ensures !ok ==>
                && tree == Interrupted(old(tree), v, old(nonceNode) + 1)
                && nonceRoot == old(nonceRoot) == Root(tree) && Spells(View(), tree)
                && Bst(tree) && Unshared(tree) && Vals(tree) == Vals(old(tree)) + {v} && setSize == |Vals(tree)|
    {
      hide Spells, Ids, Vals, TreeInsert, Interrupted, Exact, Bst, Unshared, Linked, Finds, View, FlagsSound, Step;
      hide Keeps, Numbers, Outcome, H, LinkedBelow;
      var beforeInsertSize := setSize;
      ghost var (t, m, n) := (tree, View(), nonceNode);
      var root;
      ghost var t';
      KeepsParts(m, n, beforeInsertSize, t);
      ok, root, t' := InsertNode(nonceRoot, v, t);
      OutcomeOfAdd(t, v, m, n, beforeInsertSize, ok, root, t', View(), nonceNode, setSize, rule);
      tree := t';
      if !ok {
        OutcomeOfThrow(t, v, m, n, beforeInsertSize, root, t', View(), nonceNode, setSize);
        return false, false;
      }
      nonceRoot := root;
      changed := beforeInsertSize != setSize;
    }

    /** src/store/set.h:190-196.  Acts as the call `Del(v)` of a run, and never throws. */
    method Erase(v: int) returns (changed: bool)
      requires Valid()
      modifies this
      ensures Valid() && Step(old(State()), Del(v), rule) == Some((State(), changed))
      ensures old(FlagsSound()) ==> FlagsSound()
    {
      hide Spells, Ids, Vals, TreeDelete, Exact, Bst, Unshared, Linked, Finds, View, FlagsSound, EraseOutcome, Step;
      var beforeInsertSize := setSize;
      ghost var (t, m) := (tree, View());
      FoundHasSize(t, v);
      var root;
      ghost var t';
      root, t' := DeleteNode(nonceRoot, v, t);
      OutcomeOfDel(t, v, m, nonceNode, beforeInsertSize, root, t', View(), setSize, rule);
      nonceRoot, tree := root, t';
      changed := beforeInsertSize != setSize;
    }

    /** src/store/set.h:199-217.  `visits` counts the nodes that the search looks at. */
    method Contains(v: int) returns (found: bool, ghost visits: nat)
      requires Valid()
      modifies this`cache
      ensures Valid() && State() == old(State()) && View() == old(View())
      ensures found == (v in Vals(tree)) && visits <= H(tree)
      ensures old(FlagsSound()) ==> FlagsSound()
    {
      hide Ids, Vals, Bst, Linked, Represents, FlagsSound, OthersErased;
      FindsIffMember(tree, v);
      found, visits := false, 0;
      var current := nonceRoot;
      ghost var s := tree;
      while current != 0
        invariant View() == old(View()) && tree == old(tree) && Spells(View(), s) && Exact(s) && Unshared(s)
        invariant current == Root(s) && (Finds(tree, v) == Finds(s, v)) && visits + H(s) <= H(tree)
        invariant old(FlagsSound()) ==> FlagsSound()
        decreases s
      {
        assert s.Node?;
        var currentNode := GetNode(current);
        visits := visits + 1;
        if v == currentNode.value.val {
          found := true;
          return;
        }
        if v < currentNode.value.val {
          current, s := currentNode.value.left, s.left;
        } else {
          current, s := currentNode.value.right, s.right;
        }
      }
      LeafRoot(s);
    }

    /** src/store/set.h:220-232.  The value of an empty set is the default one. */
    method MaxValue() returns (v: int, ghost visits: nat)
      requires Valid()
      modifies this`cache
      ensures Valid() && State() == old(State()) && View() == old(View())
      ensures Vals(tree) == {} ==> v == 0
      ensures Vals(tree) != {} ==> v in Vals(tree) && forall x :: x in Vals(tree) ==> x <= v
      ensures visits <= H(tree)
      ensures old(FlagsSound()) ==> FlagsSound()
    {
      hide Linked, FlagsSound, OthersErased, Ids, Vals, Bst;
      EmptyIffLeaf(tree);
      visits := 0;
      if setSize == 0 {
        return 0, 0;
      }
      GreatestIsLargest(tree);
      var current := nonceRoot;
      ghost var s := tree;
      while true
        invariant View() == old(View()) && tree == old(tree) && Spells(View(), s) && Unshared(s)
        invariant current == Root(s) && s.Node? && Greatest(s) == Greatest(tree)
        invariant Exact(s) && visits + H(s) <= H(tree)
        invariant old(FlagsSound()) ==> FlagsSound()
        decreases s
      {
        var currentNode := GetNode(current);
        visits := visits + 1;
        if currentNode.value.right == 0 {
          LeafRoots(s);
          return currentNode.value.val, visits;
        }
        current, s := currentNode.value.right, s.right;
      }
    }

    /** src/store/set.h:242-260 */
    method Find(v: int) returns (it: Iterator, ghost visits: nat)
      requires Valid()
      modifies this`cache
      ensures Valid() && State() == old(State()) && View() == old(View())
      ensures fresh(it) && it.set_ == this
      ensures v !in Vals(tree) ==> it.currentNonce == 0
      ensures v in Vals(tree) ==>
        it.currentNonce in Ids(tree) && it.currentNonce in View() && View()[it.currentNonce].val == v
      ensures visits <= H(tree)
      ensures old(FlagsSound()) ==> FlagsSound()
    {
      hide Vals, Bst, Linked, Represents, FlagsSound, OthersErased;
      FindsIffMember(tree, v);
      visits := 0;
      var current := nonceRoot;
      ghost var s := tree;
      while current != 0
        invariant View() == old(View()) && tree == old(tree) && Spells(View(), s) && Unshared(s)
        invariant current == Root(s) && (Finds(tree, v) == Finds(s, v)) && Ids(s) <= Ids(tree)
        invariant Exact(s) && visits + H(s) <= H(tree)
        invariant old(FlagsSound()) ==> FlagsSound()
        decreases s
      {
        assert s.Node?;
        var currentNode := GetNode(current);
        visits := visits + 1;
        if v == currentNode.value.val {
          it := new Iterator(current, this);
          return;
        }
        if v < currentNode.value.val {
          current, s := currentNode.value.left, s.left;
        } else {
          current, s := currentNode.value.right, s.right;
        }
      }
      LeafRoot(s);
      it := new Iterator(0, this);
    }

    /** src/store/set.h:263-274.  Null when it throws, which it does on an empty set. */
    method Begin() returns (it: Iterator?)
      requires Valid()
      modifies this`cache
      ensures Valid() && State() == old(State()) && View() == old(View())
      ensures it == null <==> tree.Leaf?
      ensures it != null ==> fresh(it) && it.set_ == this && Order(tree) != [] && it.currentNonce == Order(tree)[0]
      ensures old(FlagsSound()) ==> FlagsSound()
    {
      hide Vals, Bst, Linked, Represents, FlagsSound, OthersErased, Order, Ids;
      if tree.Node? {
        EndsOfOrder(tree);
      }
      var current := nonceRoot;
      ghost var s := tree;
      while true
        invariant View() == old(View()) && tree == old(tree) && Spells(View(), s) && Unshared(s)
        invariant current == Root(s) && (s.Leaf? ==> tree.Leaf?) && (s.Node? ==> tree.Node? && First(s) == First(tree))
        invariant old(FlagsSound()) ==> FlagsSound()
        decreases s
      {
        var currentNode := GetNode(current);
        if currentNode.None? {
          assert s.Leaf?;
          return null;
        }
        NotZero(s);
        if currentNode.value.left != 0 {
          current, s := currentNode.value.left, s.left;
        } else {
          it := new Iterator(current, this);
          return;
        }
      }
    }

    /** src/store/set.h:277-288 */
    method Last() returns (it: Iterator?)
      requires Valid()
      modifies this`cache
      ensures Valid() && State() == old(State()) && View() == old(View())
      ensures it == null <==> tree.Leaf?
      ensures it != null ==> fresh(it) && it.set_ == this && Order(tree) != [] && it.currentNonce == Order(tree)[|Order(tree)| - 1]
      ensures old(FlagsSound()) ==> FlagsSound()
    {
      hide Vals, Bst, Linked, Represents, FlagsSound, OthersErased, Order, Ids;
      if tree.Node? {
        EndsOfOrder(tree);
      }
      var current := nonceRoot;
      ghost var s := tree;
      while true
        invariant View() == old(View()) && tree == old(tree) && Spells(View(), s) && Unshared(s)
        invariant current == Root(s) && (s.Leaf? ==> tree.Leaf?) && (s.Node? ==> tree.Node? && AvlOrder.Last(s) == AvlOrder.Last(tree))
        invariant old(FlagsSound()) ==> FlagsSound()
        decreases s
      {
        var currentNode := GetNode(current);
        if currentNode.None? {
          assert s.Leaf?;
          return null;
        }
        NotZero(s);
        if currentNode.value.right != 0 {
          current, s := currentNode.value.right, s.right;
        } else {
          it := new Iterator(current, this);
          return;
        }
      }
    }

    /**
     The destructor while the storage is flushing, src/store/set.h:162-179.  The cache is written
     back in an order that nothing depends on.  With sound marks the store then holds exactly the tree.
     */
    method Flush()
      requires Valid()
      modifies store
      ensures store.meta == Some((nonceNode, nonceRoot, setSize))
      ensures store.nodes == Saved(old(store.nodes), cache)
      ensures old(FlagsSound()) ==> Stores(store.meta, store.nodes, tree)
    {
      hide Spells, Ids, Vals, Exact, Bst, Unshared, RecordsOf, Saved, PartlySaved, Stores;
      ghost var stored := store.nodes;
      NoneSaved(stored, cache);
      store.meta := Some((nonceNode, nonceRoot, setSize));
      if FlagsSound() {
        StoresSaved(stored, cache, tree, nonceNode, setSize);
      }
      var pending := cache.Keys;
      while pending != {}
        invariant pending <= cache.Keys && store.meta == Some((nonceNode, nonceRoot, setSize))
        invariant PartlySaved(stored, cache, pending, store.nodes)
        decreases pending
      {
        var id :| id in pending;
        ghost var before := store.nodes;
        if cache[id].status.Changed? {
          store.nodes := store.nodes[id := cache[id].(status := Unchanged)];
        } else if cache[id].status.Erased? {
          store.nodes := store.nodes - {id};
        }
        SavedOne(stored, cache, pending, before, id);
        pending := pending - {id};
      }
      AllSaved(stored, cache, store.nodes);
    }
  }

  /** A position in the traversal of a set; 0 is past either end. */
  class Iterator {
    const set_: Set
    var currentNonce: nat

    constructor (currentNonce: nat, s: Set)
      ensures this.currentNonce == currentNonce && this.set_ == s
    {
      this.currentNonce, this.set_ := currentNonce, s;
    }

    /** The iterator stands on a node, or past the end. */
    ghost predicate Standing()
      reads this, set_, set_.store
    {
      set_.Valid() && (currentNonce == 0 || currentNonce in Ids(set_.tree))
    }

    /** And the parent links of the set are right, without which a climb need not end. */
    ghost predicate Valid()
      reads this, set_, set_.store
    {
      Standing() && Linked(set_.tree, 0)
    }

    /** The next step goes up, along parent links. */
    ghost predicate ClimbsForward()
      reads this, set_, set_.store
    {
      currentNonce in set_.View() && set_.View()[currentNonce].right == 0
    }

    ghost predicate ClimbsBackward()
      reads this, set_, set_.store
    {
      currentNonce in set_.View() && set_.View()[currentNonce].left == 0
    }

    /** src/store/set.h:52-57 */
    method Value() returns (v: int)
      requires Standing()
      modifies set_`cache
      ensures Standing() && set_.State() == old(set_.State()) && set_.View() == old(set_.View())
      ensures currentNonce == 0 ==> v == 0
      ensures currentNonce != 0 ==>
        Place(set_.tree, currentNonce) < |Values(set_.tree)| && v == Values(set_.tree)[Place(set_.tree, currentNonce)]
    {
      if currentNonce == 0 {
        return 0;
      }
      SpellsAt(set_.View(), set_.tree, currentNonce);
      ValueAtPlace(set_.tree, currentNonce);
      var node := set_.GetNode(currentNonce);
      v := node.value.val;
    }

    /** src/store/set.h:65-83: climb until a step comes from the left. */
    method ClimbForward(ghost m: Records, ghost t: Tree, ghost k: nat)
      requires Valid() && m == set_.View() && t == set_.tree
      requires currentNonce in Ids(t) && currentNonce in m && m[currentNonce].right == 0
      requires Sound(t) && Spells(m, t) && k == Place(t, currentNonce) < |Order(t)|
      modifies this, set_`cache
      ensures Valid() && set_.State() == old(set_.State()) && set_.View() == old(set_.View())
      ensures currentNonce == if k + 1 < |Order(t)| then Order(t)[k + 1] else 0
      ensures old(set_.FlagsSound()) ==> set_.FlagsSound()
    {
      hide Spells, Ids, Vals, Order, At, Start, Size, Exact, Bst, Unshared, Linked, Numbers, OthersErased;
      StepDown(m, t, currentNonce);
      var now := currentNonce;
      while true
        invariant now in Ids(t) && now in m && Start(t, now) + Size(At(t, now)) == k + 1
        invariant set_.Valid() && set_.View() == m && set_.State() == old(set_.State()) && currentNonce == old(currentNonce)
        invariant old(set_.FlagsSound()) ==> set_.FlagsSound()
        decreases Size(t) - Size(At(t, now))
      {
        StepUp(m, t, now);
        var nowNode := set_.Look(now);
        var parent := nowNode.parent;
        if parent == 0 {
          currentNonce := 0;
          return;
        }
        StepDown(m, t, parent);
        var parentNode := set_.Look(parent);
        if parentNode.right == now {
          now := parent;
        } else {
          currentNonce := parent;
          return;
        }
      }
    }

    /** src/store/set.h:84-95: one step to the right, then down to the left. */
    method DescendForward(ghost m: Records, ghost t: Tree, ghost k: nat)
      requires Standing() && m == set_.View() && t == set_.tree
      requires currentNonce in Ids(t) && currentNonce in m && m[currentNonce].right != 0
      requires Sound(t) && Spells(m, t) && k == Place(t, currentNonce) < |Order(t)|
      modifies this, set_`cache
      ensures Standing() && set_.State() == old(set_.State()) && set_.View() == old(set_.View())
      ensures currentNonce == if k + 1 < |Order(t)| then Order(t)[k + 1] else 0
      ensures old(set_.FlagsSound()) ==> set_.FlagsSound()
    {
      hide Spells, Ids, Vals, Order, At, Start, Size, Exact, Bst, Unshared, Linked, Numbers, OthersErased;
      StepDown(m, t, currentNonce);
      var node := set_.Look(currentNonce);
      var now := node.right;
      while true
        invariant now in Ids(t) && Start(t, now) == k + 1
        invariant set_.Valid() && set_.View() == m && set_.State() == old(set_.State()) && currentNonce == old(currentNonce)
        invariant old(set_.FlagsSound()) ==> set_.FlagsSound()
        decreases Size(At(t, now))
      {
        StepDown(m, t, now);
        var nowNode := set_.Look(now);
        if nowNode.left == 0 {
          currentNonce := now;
          return;
        }
        now := nowNode.left;
      }
    }

    /** src/store/set.h:60-96 */
    method Increment()
      requires Standing() && (ClimbsForward() ==> Linked(set_.tree, 0))
      modifies this, set_`cache
      ensures Standing() && set_.State() == old(set_.State()) && set_.View() == old(set_.View())
      ensures currentNonce == if old(currentNonce) == 0 then 0 else Next(set_.tree, old(currentNonce))
      ensures old(set_.FlagsSound()) ==> set_.FlagsSound()
    {
      hide Spells, Ids, Vals, Order, At, Start, Size, Exact, Bst, Unshared, Linked, Numbers, OthersErased;
      if currentNonce == 0 {
        return;
      }
      ghost var (t, m, k) := (set_.tree, set_.View(), Place(set_.tree, currentNonce));
      StepDown(m, t, currentNonce);
      var node := set_.Look(currentNonce);
      if node.right == 0 {
        ClimbForward(m, t, k);
      } else {
        DescendForward(m, t, k);
      }
    }

    /** src/store/set.h:104-122: climb until a step comes from the right. */
    method ClimbBackward(ghost m: Records, ghost t: Tree, ghost k: nat)
      requires Valid() && m == set_.View() && t == set_.tree
      requires currentNonce in Ids(t) && currentNonce in m && m[currentNonce].left == 0
      requires Sound(t) && Spells(m, t) && k == Place(t, currentNonce) < |Order(t)|
      modifies this, set_`cache
      ensures Valid() && set_.State() == old(set_.State()) && set_.View() == old(set_.View())
      ensures currentNonce == if k > 0 then Order(t)[k - 1] else 0
      ensures old(set_.FlagsSound()) ==> set_.FlagsSound()
    {
      hide Spells, Ids, Vals, Order, At, Start, Size, Exact, Bst, Unshared, Linked, Numbers, OthersErased;
      StepDown(m, t, currentNonce);
      var now := currentNonce;
      while true
        invariant now in Ids(t) && now in m && Start(t, now) == k
        invariant set_.Valid() && set_.View() == m && set_.State() == old(set_.State()) && currentNonce == old(currentNonce)
        invariant old(set_.FlagsSound()) ==> set_.FlagsSound()
        decreases Size(t) - Size(At(t, now))
      {
        StepUp(m, t, now);
        var nowNode := set_.Look(now);
        var parent := nowNode.parent;
        if parent == 0 {
          currentNonce := 0;
          return;
        }
        StepDown(m, t, parent);
        var parentNode := set_.Look(parent);
        if parentNode.left == now {
          now := parent;
        } else {
          currentNonce := parent;
          return;
        }
      }
    }

    /** src/store/set.h:123-134: one step to the left, then down to the right. */
    method DescendBackward(ghost m: Records, ghost t: Tree, ghost k: nat)
      requires Standing() && m == set_.View() && t == set_.tree
      requires currentNonce in Ids(t) && currentNonce in m && m[currentNonce].left != 0
      requires Sound(t) && Spells(m, t) && k == Place(t, currentNonce) < |Order(t)|
      modifies this, set_`cache
      ensures Standing() && set_.State() == old(set_.State()) && set_.View() == old(set_.View())
      ensures currentNonce == if k > 0 then Order(t)[k - 1] else 0
      ensures old(set_.FlagsSound()) ==> set_.FlagsSound()
    {
      hide Spells, Ids, Vals, Order, At, Start, Size, Exact, Bst, Unshared, Linked, Numbers, OthersErased;
      StepDown(m, t, currentNonce);
      var node := set_.Look(currentNonce);
      var now := node.left;
      while true
        invariant now in Ids(t) && Start(t, now) + Size(At(t, now)) == k
        invariant set_.Valid() && set_.View() == m && set_.State() == old(set_.State()) && currentNonce == old(currentNonce)
        invariant old(set_.FlagsSound()) ==> set_.FlagsSound()
        decreases Size(At(t, now))
      {
        StepDown(m, t, now);
        var nowNode := set_.Look(now);
        if nowNode.right == 0 {
          currentNonce := now;
          return;
        }
        now := nowNode.right;
      }
    }

    /** src/store/set.h:99-135 */
    method Decrement()
      requires Standing() && (ClimbsBackward() ==> Linked(set_.tree, 0))
      modifies this, set_`cache
      ensures Standing() && set_.State() == old(set_.State()) && set_.View() == old(set_.View())
      ensures currentNonce == if old(currentNonce) == 0 then 0 else Prev(set_.tree, old(currentNonce))
      ensures old(set_.FlagsSound()) ==> set_.FlagsSound()
    {
      hide Spells, Ids, Vals, Order, At, Start, Size, Exact, Bst, Unshared, Linked, Numbers, OthersErased;
      if currentNonce == 0 {
        return;
      }
      ghost var (t, m, k) := (set_.tree, set_.View(), Place(set_.tree, currentNonce));
      StepDown(m, t, currentNonce);
      var node := set_.Look(currentNonce);
      if node.left == 0 {
        ClimbBackward(m, t, k);
      } else {
        DescendBackward(m, t, k);
      }
    }
  }

  /** Writing a set with sound marks back and opening the same store again gives the same set. */
  method Reload(s: Set) returns (s': Set)
    requires s.Valid() && s.FlagsSound()
    modifies s.store
    ensures fresh(s') && s'.store == s.store && s'.Valid() && s'.FlagsSound()
    ensures s'.State() == old(s.State()) && s'.nonceRoot == old(s.nonceRoot)
  {
    hide Spells, Ids, Vals, Exact, Bst, Unshared, RecordsOf;
    s.Flush();
    s' := new Set(s.store, s.rule, s.tree);
  }
}
