/**
 Whole runs of insertions and erasures on a set that starts empty.
 */
module AvlRuns {
  import opened Wrappers
  import opened AvlTree
  import opened AvlSet
  import opened AvlBalance
  import opened AvlLinks

  // ---------------------------------------------------------------- runs

  datatype Op = Add(v: int) | Del(v: int)

  datatype SetState = SetState(tree: Tree, nonce: nat, size: int)

  const EMPTY := SetState(Leaf, 0, 0)

  /** The search that `contains` makes. */
  predicate Finds(t: Tree, v: int) {
    if t.Leaf? then false
    else if v == t.val then true
    else if v < t.val then Finds(t.left, v)
    else Finds(t.right, v)
  }

  lemma {:induction false} FindsIffMember(t: Tree, v: int)
    requires Bst(t)
    ensures Finds(t, v) <==> v in Vals(t)
  {
    if t.Node? {
      BstSides(t, v);
      FindsIffMember(t.left, v);
      FindsIffMember(t.right, v);
    }
  }

  /** One public call: the next state and whether the call reports a change; None when it throws. */
  function Step(s: SetState, op: Op, rule: TieRule): Option<(SetState, bool)>
    requires Exact(s.tree)
  {
    match op
    case Add(v) =>
      var t := TreeInsert(s.tree, v, s.nonce + 1);
      if t.None? then None
      else if Finds(s.tree, v) then Some((SetState(t.value, s.nonce, s.size), false))
      else Some((SetState(t.value, s.nonce + 1, s.size + 1), true))
    case Del(v) =>
      var t := TreeDelete(s.tree, v, rule);
      if Finds(s.tree, v) then Some((SetState(t, s.nonce, s.size - 1), true))
      else Some((SetState(t, s.nonce, s.size), false))
  }

  /** The same call on a mathematical set. */
  function SetStep(s: set<int>, op: Op): (set<int>, bool) {
    match op
    case Add(v) => (s + {v}, v !in s)
    case Del(v) => (s - {v}, v in s)
  }

  /** The state `s` represents the set `members`. */
  ghost predicate Represents(s: SetState, members: set<int>) {
    && Sound(s.tree) && Vals(s.tree) == members && s.size == |members|
    && forall i :: i in Ids(s.tree) ==> i <= s.nonce
  }

  lemma AddRefines(s: SetState, members: set<int>, v: int)
    requires Represents(s, members)
    requires TreeInsert(s.tree, v, s.nonce + 1).Some?
    ensures var t := TreeInsert(s.tree, v, s.nonce + 1).value;
      var added := !Finds(s.tree, v);
      && added == (v !in members)
      && Represents(SetState(t, if added then s.nonce + 1 else s.nonce, if added then s.size + 1 else s.size), members + {v})
  {
    hide Finds, TreeInsert, Vals, Ids, Exact, Bst, Unshared;
    FindsIffMember(s.tree, v);
    InsertAdds(s.tree, v, s.nonce + 1);
    if v in members {
      assert members + {v} == members;
    }
  }

  lemma DelRefines(s: SetState, members: set<int>, v: int, rule: TieRule)
    requires Represents(s, members)
    ensures var t := TreeDelete(s.tree, v, rule);
      var found := Finds(s.tree, v);
      && found == (v in members)
      && Represents(SetState(t, s.nonce, if found then s.size - 1 else s.size), members - {v})
  {
    hide Finds, TreeDelete, Vals, Ids, Exact, Bst, Unshared;
    FindsIffMember(s.tree, v);
    DeleteRemoves(s.tree, v, rule);
    if v !in members {
      assert members - {v} == members;
    }
  }

  /** Every call that completes acts as on a mathematical set, whatever the shape of the tree. */
  lemma StepRefines(s: SetState, members: set<int>, op: Op, rule: TieRule)
    requires Represents(s, members)
    requires Step(s, op, rule).Some?
    ensures var (s', changed) := Step(s, op, rule).value;
      Represents(s', SetStep(members, op).0) && changed == SetStep(members, op).1
  {
    hide Finds, TreeInsert, TreeDelete, Vals, Ids, Exact, Bst, Unshared;
    if op.Add? {
      var added := !Finds(s.tree, op.v);
      var t := TreeInsert(s.tree, op.v, s.nonce + 1).value;
      AddRefines(s, members, op.v);
      assert Step(s, op, rule).value
        == (SetState(t, if added then s.nonce + 1 else s.nonce, if added then s.size + 1 else s.size), added);
    } else {
      var found := Finds(s.tree, op.v);
      var t := TreeDelete(s.tree, op.v, rule);
      DelRefines(s, members, op.v, rule);
      assert Step(s, op, rule).value == (SetState(t, s.nonce, if found then s.size - 1 else s.size), found);
    }
  }

  /** The calls made on a set so far. */
  datatype History = Fresh | After(before: History, op: Op)

  /** What a history of calls on an empty set leaves; None when a call throws. */
  ghost function Run(h: History, rule: TieRule): (r: Option<SetState>)
    ensures r.Some? ==> Exact(r.value.tree)
  {
    if h.Fresh? then Some(EMPTY)
    else
      var before := Run(h.before, rule);
      if before.None? then None
      else
        var after := Step(before.value, h.op, rule);
        if after.None? then None else Some(after.value.0)
  }

  /** What the calls of a history that completes answer, in order. */
  ghost function Answers(h: History, rule: TieRule): seq<bool>
    requires Run(h, rule).Some?
  {
    if h.Fresh? then []
    else Answers(h.before, rule) + [Step(Run(h.before, rule).value, h.op, rule).value.1]
  }

  /** The same history on a mathematical set. */
  function SetRun(h: History): set<int> {
    if h.Fresh? then {} else SetStep(SetRun(h.before), h.op).0
  }

  function SetAnswers(h: History): seq<bool> {
    if h.Fresh? then [] else SetAnswers(h.before) + [SetStep(SetRun(h.before), h.op).1]
  }

  /** Every run that completes answers as a mathematical set does and leaves a state that represents it. */
  lemma {:induction false} RunRefinesSet(h: History, rule: TieRule)
    requires Run(h, rule).Some?
    ensures Represents(Run(h, rule).value, SetRun(h)) && Answers(h, rule) == SetAnswers(h)
  {
    if h.After? {
      RunRefinesSet(h.before, rule);
      StepRefines(Run(h.before, rule).value, SetRun(h.before), h.op, rule);
    }
  }

  /** An AVL tree with right parent links: what the set is meant to be between calls. */
  ghost predicate Intact(t: Tree) {
    Avl(t) && Linked(t, 0)
  }

  /** The erase `op` meets the branch of the source that loses balance. */
  predicate MeetsLopsidedTie(t: Tree, op: Op) {
    op.Del? && LopsidedTie(t, op.v)
  }

  /** From an intact tree a call never throws, and leaves it intact unless it is an erase as written that meets a lopsided tie. */
  lemma StepKeepsIntact(s: SetState, op: Op, rule: TieRule)
    requires Intact(s.tree)
    ensures Step(s, op, rule).Some?
    ensures rule.TieToSingle? ==> Intact(Step(s, op, rule).value.0.tree)
    ensures rule.AsWritten? ==>
      (Intact(Step(s, op, rule).value.0.tree) <==> !MeetsLopsidedTie(s.tree, op))
  {
    hide TreeInsert, TreeDelete, Finds, Linked, Vals;
    match op {
      case Add(v) =>
        InsertKeepsAvl(s.tree, v, s.nonce + 1);
        InsertKeepsLinks(s.tree, 0, v, s.nonce + 1);
      case Del(v) =>
        BalanceSplicesLeaf(s.tree, v);
        DeleteKeepsLinks(s.tree, 0, v, rule);
        DeleteKeepsAvl(s.tree, v);
        DeleteAsWrittenBalance(s.tree, v);
    }
  }

  /** With ties going to the single rotation no run throws, and every run leaves an intact tree. */
  lemma {:induction false} RunStaysIntact(h: History)
    ensures Run(h, TieToSingle).Some? && Intact(Run(h, TieToSingle).value.tree)
  {
    if h.After? {
      RunStaysIntact(h.before);
      StepKeepsIntact(Run(h.before, TieToSingle).value, h.op, TieToSingle);
    }
  }

  /** Some erase of the run as written meets a lopsided tie. */
  ghost predicate RunMeetsLopsidedTie(h: History) {
    && h.After?
    && var before := Run(h.before, AsWritten);
      || RunMeetsLopsidedTie(h.before)
      || (before.Some? && MeetsLopsidedTie(before.value.tree, h.op))
  }

  /** As written, a run that meets no lopsided tie never throws and leaves an intact tree. */
  lemma {:induction false} RunAsWrittenStaysIntact(h: History)
    requires !RunMeetsLopsidedTie(h)
    ensures Run(h, AsWritten).Some? && Intact(Run(h, AsWritten).value.tree)
  {
    if h.After? {
      RunAsWrittenStaysIntact(h.before);
      StepKeepsIntact(Run(h.before, AsWritten).value, h.op, AsWritten);
    }
  }
}
