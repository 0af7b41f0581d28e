/**
 What an erase does near the root of each subtree, read off the tree before the call.  The
 rotation at a node depends on the two levels below its children, so a sketch of that depth
 can be carried up the search path in place of the erased tree.
 */
module AvlSketch {
  import opened Wrappers
  import opened AvlTree
  import opened AvlSet

  /** The nonces and heights of the upper levels of a tree. */
  datatype Sketch =
    | Bare
    | Top(id: nat, height: nat, left: Sketch, right: Sketch)

  /** The sketch of `t` down to `d` levels below the root. */
  function Drawn(t: Tree, d: nat): Sketch
    decreases d
  {
    if t.Leaf? then Bare
    else if d == 0 then Top(t.id, t.height, Bare, Bare)
    else Top(t.id, t.height, Drawn(t.left, d - 1), Drawn(t.right, d - 1))
  }

  function Cut(s: Sketch, d: nat): Sketch
    decreases d
  {
    if s.Bare? then Bare
    else if d == 0 then Top(s.id, s.height, Bare, Bare)
    else Top(s.id, s.height, Cut(s.left, d - 1), Cut(s.right, d - 1))
  }

  function Tall(s: Sketch): nat {
    if s.Bare? then 0 else s.height
  }

  function First(s: Sketch): set<nat> {
    if s.Bare? then {} else {s.id}
  }

  /** A node over two sides. */
  function Over(id: nat, l: Sketch, r: Sketch): Sketch {
    Top(id, 1 + Max(Tall(l), Tall(r)), l, r)
  }

  /** The node `id` over two sides, after the rotation of an erase. */
  function Turned(id: nat, l: Sketch, r: Sketch, rule: TieRule): Sketch {
    if Tall(l) > Tall(r) + 1 && l.Top? then
      var g := l.right;
      if Tall(l.left) >= Tall(g) || g.Bare? then Over(l.id, l.left, Over(id, g, r))
      else Over(g.id, Over(l.id, l.left, g.left), Over(id, g.right, r))
    else if Tall(r) > Tall(l) + 1 && r.Top? then
      var g := r.left;
      if Tall(g) < Tall(r.right) || g.Bare? || (rule.TieToSingle? && Tall(g) == Tall(r.right)) then
        Over(r.id, Over(id, l, g), r.right)
      else Over(g.id, Over(id, l, g.left), Over(r.id, g.right, r.right))
    else Over(id, l, r)
  }

  /** The nodes whose parent link that rotation writes, the new root's own apart. */
  function Rewritten(l: Sketch, r: Sketch, rule: TieRule): set<nat> {
    if Tall(l) > Tall(r) + 1 && l.Top? then
      var g := l.right;
      if Tall(l.left) >= Tall(g) || g.Bare? then {l.id} + First(g)
      else {l.id, g.id} + First(g.left) + First(g.right)
    else if Tall(r) > Tall(l) + 1 && r.Top? then
      var g := r.left;
      if Tall(g) < Tall(r.right) || g.Bare? || (rule.TieToSingle? && Tall(g) == Tall(r.right)) then {r.id} + First(g)
      else {r.id, g.id} + First(g.left) + First(g.right)
    else {}
  }

  /** The upper two levels of the tree that an erase of `v` will leave. */
  function Left(t: Tree, v: int, rule: TieRule): Sketch
    decreases t, 0
  {
    if t.Leaf? then Bare
    else if v < t.val then Cut(Turned(t.id, Left(t.left, v, rule), Drawn(t.right, 2), rule), 2)
    else if v > t.val then Cut(Turned(t.id, Drawn(t.left, 2), Left(t.right, v, rule), rule), 2)
    else if t.left.Leaf? || t.right.Leaf? then
      var c := OnlyChild(t);
      if c.Leaf? then Bare else Cut(Turned(t.id, Drawn(c.left, 2), Drawn(c.right, 2), rule), 2)
    else Cut(Turned(t.id, Drawn(t.left, 2), Left(t.right, Min(t.right), rule), rule), 2)
  }

  lemma {:induction false} CutDrawn(t: Tree, d: nat, e: nat)
    requires e <= d
    ensures Cut(Drawn(t, d), e) == Drawn(t, e)
    decreases d
  {
    if t.Node? && e > 0 {
      CutDrawn(t.left, d - 1, e - 1);
      CutDrawn(t.right, d - 1, e - 1);
    }
  }

  lemma DrawnTop(t: Tree, d: nat)
    ensures Tall(Drawn(t, d)) == H(t) && (Drawn(t, d).Bare? <==> t.Leaf?)
  {
  }

  lemma DrawnRight(y: Tree)
    requires y.Node? && y.left.Node?
    ensures var (l, r) := (Drawn(y.left, 2), Drawn(y.right, 2));
            Drawn(RotateRight(y), 2) == Cut(Over(l.id, l.left, Over(y.id, l.right, r)), 2)
  {
  }

  lemma DrawnLeft(x: Tree)
    requires x.Node? && x.right.Node?
    ensures var (l, r) := (Drawn(x.left, 2), Drawn(x.right, 2));
            Drawn(RotateLeft(x), 2) == Cut(Over(r.id, Over(x.id, l, r.left), r.right), 2)
  {
  }

  lemma DrawnDoubleRight(u: Tree)
    requires u.Node? && u.left.Node? && u.left.right.Node?
    ensures var (l, r) := (Drawn(u.left, 2), Drawn(u.right, 2));
            l.right.Top? && Drawn(RotateRight(u.(left := RotateLeft(u.left))), 2)
            == Cut(Over(l.right.id, Over(l.id, l.left, l.right.left), Over(u.id, l.right.right, r)), 2)
  {
  }

  lemma DrawnDoubleLeft(u: Tree)
    requires u.Node? && u.right.Node? && u.right.left.Node?
    ensures var (l, r) := (Drawn(u.left, 2), Drawn(u.right, 2));
            r.left.Top? && Drawn(RotateLeft(u.(right := RotateRight(u.right))), 2)
            == Cut(Over(r.left.id, Over(u.id, l, r.left.left), Over(r.id, r.left.right, r.right)), 2)
  {
  }

  /** What the rotation of a node looks at, in its sketch. */
  lemma DrawnSide(t: Tree)
    ensures t.Leaf? ==> Drawn(t, 2) == Bare
    ensures t.Node? ==>
      && Drawn(t, 2).Top? && Drawn(t, 2).id == t.id && Tall(Drawn(t, 2)) == H(t)
      && Tall(Drawn(t, 2).left) == H(t.left) && (Drawn(t, 2).left.Bare? <==> t.left.Leaf?)
      && Tall(Drawn(t, 2).right) == H(t.right) && (Drawn(t, 2).right.Bare? <==> t.right.Leaf?)
  {
  }

  /** The sketch of a rebalanced node follows from the sketches of its sides. */
  lemma DrawnSettled(u: Tree, rule: TieRule)
    requires u.Node? && Exact(u.left) && Exact(u.right)
    ensures Drawn(Settle(u, rule), 2) == Cut(Turned(u.id, Drawn(u.left, 2), Drawn(u.right, 2), rule), 2)
  {
    hide RotateRight, RotateLeft, Drawn, Cut, Over;
    var w := Refresh(u);
    DrawnSide(u.left);
    DrawnSide(u.right);
    if H(u.left) > H(u.right) + 1 {
      if H(u.left.left) >= H(u.left.right) {
        DrawnRight(w);
      } else {
        DrawnDoubleRight(w);
      }
    } else if H(u.right) > H(u.left) + 1 {
      if H(u.right.left) < H(u.right.right) || (rule.TieToSingle? && H(u.right.left) == H(u.right.right)) {
        DrawnLeft(w);
      } else {
        DrawnDoubleLeft(w);
      }
    } else {
      DrawnStill(u);
    }
  }

  lemma DrawnStill(u: Tree)
    requires u.Node?
    ensures Drawn(Refresh(u), 2) == Cut(Over(u.id, Drawn(u.left, 2), Drawn(u.right, 2)), 2)
  {
    CutDrawn(u.left, 2, 1);
    CutDrawn(u.right, 2, 1);
    DrawnTop(u.left, 2);
    DrawnTop(u.right, 2);
  }

  /** The sketch computed before the call is that of the erased tree. */
  lemma {:induction false} LeftIsDrawn(t: Tree, v: int, rule: TieRule)
    requires Exact(t)
    ensures Left(t, v, rule) == Drawn(TreeDelete(t, v, rule), 2)
    decreases t
  {
    hide Drawn, Cut, Turned, Settle;
    if t.Leaf? {
      DrawnTop(Leaf, 2);
    } else if v < t.val {
      LeftIsDrawn(t.left, v, rule);
      var l := TreeDelete(t.left, v, rule);
      DrawnMoved(l, t.id);
      DrawnSettled(t.(left := SetParent(l, t.id)), rule);
    } else if v > t.val {
      LeftIsDrawn(t.right, v, rule);
      var r := TreeDelete(t.right, v, rule);
      DrawnMoved(r, t.id);
      DrawnSettled(t.(right := SetParent(r, t.id)), rule);
    } else if t.left.Leaf? || t.right.Leaf? {
      if OnlyChild(t).Node? {
        DrawnSettled(Splice(t), rule);
      } else {
        DrawnTop(Leaf, 2);
      }
    } else {
      var m := Min(t.right);
      LeftIsDrawn(t.right, m, rule);
      DrawnSettled(t.(val := m, right := TreeDelete(t.right, m, rule)), rule);
    }
  }

  lemma DrawnMoved(t: Tree, p: nat)
    ensures Drawn(SetParent(t, p), 2) == Drawn(t, 2)
  {
  }
}
