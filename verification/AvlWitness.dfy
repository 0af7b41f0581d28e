/**
 Two concrete runs of the source's set from empty.  In the first an erase loses balance and the
 next one breaks a parent link.  In the second, after thirteen insertions and an erase of 50, inserting
 73, erasing 20 and inserting 90, which is present, throws "Node not found".  The erases go through
 the branch at src/store/set.h:555.
 */
module AvlWitness {
  import opened Wrappers
  import opened AvlTree
  import opened AvlBalance
  import opened AvlRuns

  /** The history of a list of calls, the first one first. */
  function Playing(ops: seq<Op>): History {
    if ops == [] then Fresh else After(Playing(ops[..|ops| - 1]), ops[|ops| - 1])
  }

  lemma Nothing(ops: seq<Op>)
    ensures Run(Playing(ops[..0]), AsWritten) == Some(EMPTY)
  {
  }

  lemma Plays(ops: seq<Op>, k: nat, s: SetState, next: SetState)
    requires k < |ops| && Run(Playing(ops[..k]), AsWritten) == Some(s)
    requires Step(s, ops[k], AsWritten).Some? && Step(s, ops[k], AsWritten).value.0 == next
    ensures Run(Playing(ops[..k + 1]), AsWritten) == Some(next)
  {
    hide Step, Exact;
    assert ops[..k + 1][..k] == ops[..k];
  }

  // ---------------------------------------------------------------- losing balance, then a link

  const LOSING: seq<Op> := [
    Add(20), Add(10), Add(40), Add(5), Add(30), Add(50), Add(25), Add(60), Del(5), Del(40)
  ]

  function Losing1(): SetState {
    SetState(
      Node(1, 1, 0, Leaf, 20, Leaf), 1, 1)
  }

  function Losing2(): SetState {
    SetState(
      Node(1, 2, 0, Node(2, 1, 1, Leaf, 10, Leaf), 20, Leaf), 2, 2)
  }

  function Losing3(): SetState {
    SetState(
      Node(1, 2, 0, Node(2, 1, 1, Leaf, 10, Leaf), 20, Node(3, 1, 1, Leaf, 40, Leaf)), 3, 3)
  }

  function Losing4(): SetState {
    SetState(
      Node(1, 3, 0, Node(2, 2, 1, Node(4, 1, 2, Leaf, 5, Leaf), 10, Leaf), 20, Node(3, 1, 1, Leaf, 40, Leaf)), 4, 4)
  }

  function Losing5(): SetState {
    SetState(
      Node(1, 3, 0, Node(2, 2, 1, Node(4, 1, 2, Leaf, 5, Leaf), 10, Leaf), 20, Node(3, 2, 1, Node(5, 1, 3, Leaf, 30,
      Leaf), 40, Leaf)), 5, 5)
  }

  function Losing6(): SetState {
    SetState(
      Node(1, 3, 0, Node(2, 2, 1, Node(4, 1, 2, Leaf, 5, Leaf), 10, Leaf), 20, Node(3, 2, 1, Node(5, 1, 3, Leaf, 30,
      Leaf), 40, Node(6, 1, 3, Leaf, 50, Leaf))), 6, 6)
  }

  function Losing7(): SetState {
    SetState(
      Node(1, 4, 0, Node(2, 2, 1, Node(4, 1, 2, Leaf, 5, Leaf), 10, Leaf), 20, Node(3, 3, 1, Node(5, 2, 3, Node(7,
      1, 5, Leaf, 25, Leaf), 30, Leaf), 40, Node(6, 1, 3, Leaf, 50, Leaf))), 7, 7)
  }

  function Losing8(): SetState {
    SetState(
      Node(1, 4, 0, Node(2, 2, 1, Node(4, 1, 2, Leaf, 5, Leaf), 10, Leaf), 20, Node(3, 3, 1, Node(5, 2, 3, Node(7,
      1, 5, Leaf, 25, Leaf), 30, Leaf), 40, Node(6, 2, 3, Leaf, 50, Node(8, 1, 6, Leaf, 60, Leaf)))), 8, 8)
  }

  function Losing9(): SetState {
    SetState(
      Node(5, 4, 0, Node(1, 2, 5, Node(2, 1, 1, Leaf, 10, Leaf), 20, Node(7, 1, 1, Leaf, 25, Leaf)), 30, Node(3, 3,
      5, Leaf, 40, Node(6, 2, 3, Leaf, 50, Node(8, 1, 6, Leaf, 60, Leaf)))), 8, 7)
  }

  lemma LosingStep1()
    ensures Step(EMPTY, Add(20), AsWritten) == Some((Losing1(), true))
  {
  }

  lemma LosingStep2()
    ensures Step(Losing1(), Add(10), AsWritten) == Some((Losing2(), true))
  {
  }

  lemma LosingStep3()
    ensures Step(Losing2(), Add(40), AsWritten) == Some((Losing3(), true))
  {
  }

  lemma LosingStep4()
    ensures Step(Losing3(), Add(5), AsWritten) == Some((Losing4(), true))
  {
  }

  lemma LosingStep5()
    ensures Step(Losing4(), Add(30), AsWritten) == Some((Losing5(), true))
  {
  }

  lemma LosingStep6()
    ensures Step(Losing5(), Add(50), AsWritten) == Some((Losing6(), true))
  {
  }

  lemma LosingStep7()
    ensures Step(Losing6(), Add(25), AsWritten) == Some((Losing7(), true))
  {
  }

  lemma LosingStep8()
    ensures Step(Losing7(), Add(60), AsWritten) == Some((Losing8(), true))
  {
  }

  lemma LosingBelow9()
    ensures TreeDelete(Losing8().tree.left, 5, AsWritten) ==
      Node(2, 1, 1, Leaf, 10, Leaf)
  {
  }

  lemma LosingStep9()
    ensures Step(Losing8(), Del(5), AsWritten) == Some((Losing9(), true))
  {
    LosingBelow9();
  }

  lemma LosingRun()
    ensures Run(Playing(LOSING[..9]), AsWritten) == Some(Losing9())
  {
    hide Run, Step, Playing, Losing1, Losing2, Losing3, Losing4, Losing5, Losing6, Losing7, Losing8, Losing9;
    Nothing(LOSING);
    LosingStep1();
    Plays(LOSING, 0, EMPTY, Losing1());
    LosingStep2();
    Plays(LOSING, 1, Losing1(), Losing2());
    LosingStep3();
    Plays(LOSING, 2, Losing2(), Losing3());
    LosingStep4();
    Plays(LOSING, 3, Losing3(), Losing4());
    LosingStep5();
    Plays(LOSING, 4, Losing4(), Losing5());
    LosingStep6();
    Plays(LOSING, 5, Losing5(), Losing6());
    LosingStep7();
    Plays(LOSING, 6, Losing6(), Losing7());
    LosingStep8();
    Plays(LOSING, 7, Losing7(), Losing8());
    LosingStep9();
    Plays(LOSING, 8, Losing8(), Losing9());
  }

  lemma LosingBelow10()
    ensures TreeDelete(Losing9().tree.right, 40, AsWritten) == Losing10().tree.right
  {
  }

  lemma LosingStep10()
    ensures Step(Losing9(), Del(40), AsWritten) == Some((Losing10(), true))
  {
    LosingBelow10();
  }

  function Losing10(): SetState {
    SetState(
      Node(5, 3, 0, Node(1, 2, 5, Node(2, 1, 1, Leaf, 10, Leaf), 20, Node(7, 1, 1, Leaf, 25, Leaf)), 30, Node(3, 2,
      5, Leaf, 50, Node(8, 1, 6, Leaf, 60, Leaf))), 8, 6)
  }

  lemma Lopsided()
    ensures var t := Losing9().tree;
            !Balanced(t) && Linked(t, 0) && t.right.val == 40 && H(t.right.left) == 0 && H(t.right.right) == 2
  {
  }

  lemma Stale()
    ensures var t := Losing10().tree;
            !Linked(t, 0) && t.right.right.val == 60 && t.right.right.parent !in Ids(t)
  {
  }

  /**
   Insert 20, 10, 40, 5, 30, 50, 25 and 60, then erase 5: node 40 is left with heights 0 and 2.
   Erasing 40 next leaves the parent link of 60 on a nonce that is erased.
   */
  lemma EraseLosesBalanceAndLinks()
    ensures LOSING == [Add(20), Add(10), Add(40), Add(5), Add(30), Add(50), Add(25), Add(60), Del(5), Del(40)]
    ensures Run(Playing(LOSING[..9]), AsWritten).Some?
    ensures var t := Run(Playing(LOSING[..9]), AsWritten).value.tree;
            && !Balanced(t) && Linked(t, 0)
            && t.Node? && t.right.Node? && t.right.val == 40 && H(t.right.left) == 0 && H(t.right.right) == 2
    ensures Run(Playing(LOSING[..10]), AsWritten).Some?
    ensures var t := Run(Playing(LOSING[..10]), AsWritten).value.tree;
            && !Linked(t, 0) && t.Node? && t.right.Node? && t.right.right.Node?
            && t.right.right.val == 60 && t.right.right.parent !in Ids(t)
  {
    hide Run, Playing, Step, Balanced, Linked, Exact, Ids;
    LosingRun();
    LosingStep10();
    Plays(LOSING, 9, Losing9(), Losing10());
    Lopsided();
    Stale();
  }

  // ---------------------------------------------------------------- throwing

  const FAILING: seq<Op> := [
    Add(50), Add(30), Add(80), Add(10), Add(40), Add(70), Add(110), Add(20), Add(60), Add(100), Add(120), Add(90),
    Add(130), Del(50), Add(73), Del(20)
  ]

  function Failing1(): SetState {
    SetState(
      Node(1, 1, 0, Leaf, 50, Leaf), 1, 1)
  }

  function Failing2(): SetState {
    SetState(
      Node(1, 2, 0, Node(2, 1, 1, Leaf, 30, Leaf), 50, Leaf), 2, 2)
  }

  function Failing3(): SetState {
    SetState(
      Node(1, 2, 0, Node(2, 1, 1, Leaf, 30, Leaf), 50, Node(3, 1, 1, Leaf, 80, Leaf)), 3, 3)
  }

  function Failing4(): SetState {
    SetState(
      Node(1, 3, 0, Node(2, 2, 1, Node(4, 1, 2, Leaf, 10, Leaf), 30, Leaf), 50, Node(3, 1, 1, Leaf, 80, Leaf)), 4, 4)
  }

  function Failing5(): SetState {
    SetState(
      Node(1, 3, 0, Node(2, 2, 1, Node(4, 1, 2, Leaf, 10, Leaf), 30, Node(5, 1, 2, Leaf, 40, Leaf)), 50, Node(3, 1,
      1, Leaf, 80, Leaf)), 5, 5)
  }

  function Failing6(): SetState {
    SetState(
      Node(1, 3, 0, Node(2, 2, 1, Node(4, 1, 2, Leaf, 10, Leaf), 30, Node(5, 1, 2, Leaf, 40, Leaf)), 50, Node(3, 2,
      1, Node(6, 1, 3, Leaf, 70, Leaf), 80, Leaf)), 6, 6)
  }

  function Failing7(): SetState {
    SetState(
      Node(1, 3, 0, Node(2, 2, 1, Node(4, 1, 2, Leaf, 10, Leaf), 30, Node(5, 1, 2, Leaf, 40, Leaf)), 50, Node(3, 2,
      1, Node(6, 1, 3, Leaf, 70, Leaf), 80, Node(7, 1, 3, Leaf, 110, Leaf))), 7, 7)
  }

  function Failing8(): SetState {
    SetState(
      Node(1, 4, 0, Node(2, 3, 1, Node(4, 2, 2, Leaf, 10, Node(8, 1, 4, Leaf, 20, Leaf)), 30, Node(5, 1, 2, Leaf,
      40, Leaf)), 50, Node(3, 2, 1, Node(6, 1, 3, Leaf, 70, Leaf), 80, Node(7, 1, 3, Leaf, 110, Leaf))), 8, 8)
  }

  function Failing9(): SetState {
    SetState(
      Node(1, 4, 0, Node(2, 3, 1, Node(4, 2, 2, Leaf, 10, Node(8, 1, 4, Leaf, 20, Leaf)), 30, Node(5, 1, 2, Leaf,
      40, Leaf)), 50, Node(3, 3, 1, Node(6, 2, 3, Node(9, 1, 6, Leaf, 60, Leaf), 70, Leaf), 80, Node(7, 1, 3, Leaf,
      110, Leaf))), 9, 9)
  }

  function Failing10(): SetState {
    SetState(
      Node(1, 4, 0, Node(2, 3, 1, Node(4, 2, 2, Leaf, 10, Node(8, 1, 4, Leaf, 20, Leaf)), 30, Node(5, 1, 2, Leaf,
      40, Leaf)), 50, Node(3, 3, 1, Node(6, 2, 3, Node(9, 1, 6, Leaf, 60, Leaf), 70, Leaf), 80, Node(7, 2, 3,
      Node(10, 1, 7, Leaf, 100, Leaf), 110, Leaf))), 10, 10)
  }

  function Failing11(): SetState {
    SetState(
      Node(1, 4, 0, Node(2, 3, 1, Node(4, 2, 2, Leaf, 10, Node(8, 1, 4, Leaf, 20, Leaf)), 30, Node(5, 1, 2, Leaf,
      40, Leaf)), 50, Node(3, 3, 1, Node(6, 2, 3, Node(9, 1, 6, Leaf, 60, Leaf), 70, Leaf), 80, Node(7, 2, 3,
      Node(10, 1, 7, Leaf, 100, Leaf), 110, Node(11, 1, 7, Leaf, 120, Leaf)))), 11, 11)
  }

  function Failing12(): SetState {
    SetState(
      Node(1, 5, 0, Node(2, 3, 1, Node(4, 2, 2, Leaf, 10, Node(8, 1, 4, Leaf, 20, Leaf)), 30, Node(5, 1, 2, Leaf,
      40, Leaf)), 50, Node(3, 4, 1, Node(6, 2, 3, Node(9, 1, 6, Leaf, 60, Leaf), 70, Leaf), 80, Node(7, 3, 3,
      Node(10, 2, 7, Node(12, 1, 10, Leaf, 90, Leaf), 100, Leaf), 110, Node(11, 1, 7, Leaf, 120, Leaf)))), 12, 12)
  }

  function Failing13(): SetState {
    SetState(
      Node(1, 5, 0, Node(2, 3, 1, Node(4, 2, 2, Leaf, 10, Node(8, 1, 4, Leaf, 20, Leaf)), 30, Node(5, 1, 2, Leaf,
      40, Leaf)), 50, Node(3, 4, 1, Node(6, 2, 3, Node(9, 1, 6, Leaf, 60, Leaf), 70, Leaf), 80, Node(7, 3, 3,
      Node(10, 2, 7, Node(12, 1, 10, Leaf, 90, Leaf), 100, Leaf), 110, Node(11, 2, 7, Leaf, 120, Node(13, 1, 11,
      Leaf, 130, Leaf))))), 13, 13)
  }

  function Failing14(): SetState {
    SetState(
      Node(1, 5, 0, Node(2, 3, 1, Node(4, 2, 2, Leaf, 10, Node(8, 1, 4, Leaf, 20, Leaf)), 30, Node(5, 1, 2, Leaf,
      40, Leaf)), 60, Node(10, 4, 1, Node(3, 2, 10, Node(6, 1, 3, Leaf, 70, Leaf), 80, Node(12, 1, 3, Leaf, 90,
      Leaf)), 100, Node(7, 3, 10, Leaf, 110, Node(11, 2, 7, Leaf, 120, Node(13, 1, 11, Leaf, 130, Leaf))))), 13, 12)
  }

  function Failing15(): SetState {
    SetState(
      Node(1, 5, 0, Node(2, 3, 1, Node(4, 2, 2, Leaf, 10, Node(8, 1, 4, Leaf, 20, Leaf)), 30, Node(5, 1, 2, Leaf,
      40, Leaf)), 60, Node(10, 4, 1, Node(3, 3, 10, Node(6, 2, 3, Leaf, 70, Node(14, 1, 6, Leaf, 73, Leaf)), 80,
      Node(12, 1, 3, Leaf, 90, Leaf)), 100, Node(7, 3, 10, Leaf, 110, Node(11, 2, 7, Leaf, 120, Node(13, 1, 11,
      Leaf, 130, Leaf))))), 14, 13)
  }

  function Failing16(): SetState {
    SetState(
      Node(3, 5, 0, Node(1, 3, 3, Node(2, 2, 1, Node(4, 1, 2, Leaf, 10, Leaf), 30, Node(5, 1, 2, Leaf, 40, Leaf)),
      60, Node(6, 2, 1, Leaf, 70, Node(14, 1, 6, Leaf, 73, Leaf))), 80, Node(10, 4, 3, Node(12, 1, 10, Leaf, 90,
      Leaf), 100, Node(7, 3, 10, Leaf, 110, Node(11, 2, 7, Leaf, 120, Node(13, 1, 11, Leaf, 130, Leaf))))), 14, 12)
  }

  lemma FailingStep1()
    ensures Step(EMPTY, Add(50), AsWritten) == Some((Failing1(), true))
  {
  }

  lemma FailingStep2()
    ensures Step(Failing1(), Add(30), AsWritten) == Some((Failing2(), true))
  {
  }

  lemma FailingStep3()
    ensures Step(Failing2(), Add(80), AsWritten) == Some((Failing3(), true))
  {
  }

  lemma FailingStep4()
    ensures Step(Failing3(), Add(10), AsWritten) == Some((Failing4(), true))
  {
  }

  lemma FailingStep5()
    ensures Step(Failing4(), Add(40), AsWritten) == Some((Failing5(), true))
  {
  }

  lemma FailingStep6()
    ensures Step(Failing5(), Add(70), AsWritten) == Some((Failing6(), true))
  {
  }

  lemma FailingStep7()
    ensures Step(Failing6(), Add(110), AsWritten) == Some((Failing7(), true))
  {
  }

  lemma FailingStep8()
    ensures Step(Failing7(), Add(20), AsWritten) == Some((Failing8(), true))
  {
  }

  lemma FailingBelow9()
    ensures TreeInsert(Failing8().tree.right, 60, 9) == Some(Failing9().tree.right)
  {
  }

  lemma FailingStep9()
    ensures Step(Failing8(), Add(60), AsWritten) == Some((Failing9(), true))
  {
    FailingBelow9();
  }

  lemma FailingBelow10()
    ensures TreeInsert(Failing9().tree.right, 100, 10) == Some(Failing10().tree.right)
  {
  }

  lemma FailingStep10()
    ensures Step(Failing9(), Add(100), AsWritten) == Some((Failing10(), true))
  {
    FailingBelow10();
  }

  lemma FailingBelow11()
    ensures TreeInsert(Failing10().tree.right, 120, 11) == Some(Failing11().tree.right)
  {
  }

  lemma FailingStep11()
    ensures Step(Failing10(), Add(120), AsWritten) == Some((Failing11(), true))
  {
    FailingBelow11();
  }

  lemma FailingBelow12()
    ensures TreeInsert(Failing11().tree.right, 90, 12) == Some(Failing12().tree.right)
  {
  }

  lemma FailingStep12()
    ensures Step(Failing11(), Add(90), AsWritten) == Some((Failing12(), true))
  {
    FailingBelow12();
  }

  lemma FailingBelow13()
    ensures TreeInsert(Failing12().tree.right, 130, 13) == Some(Failing13().tree.right)
  {
  }

  lemma FailingStep13()
    ensures Step(Failing12(), Add(130), AsWritten) == Some((Failing13(), true))
  {
    FailingBelow13();
  }

  lemma FailingBelow14()
    ensures TreeDelete(Failing13().tree.right, 60, AsWritten) ==
      Node(10, 4, 1, Node(3, 2, 10, Node(6, 1, 3, Leaf, 70, Leaf), 80, Node(12, 1, 3, Leaf, 90, Leaf)), 100, Node(7,
      3, 10, Leaf, 110, Node(11, 2, 7, Leaf, 120, Node(13, 1, 11, Leaf, 130, Leaf))))
  {
  }

  lemma FailingStep14()
    ensures Step(Failing13(), Del(50), AsWritten) == Some((Failing14(), true))
  {
    FailingBelow14();
  }

  lemma FailingBelow15()
    ensures TreeInsert(Failing14().tree.right, 73, 14) == Some(Failing15().tree.right)
  {
  }

  lemma FailingStep15()
    ensures Step(Failing14(), Add(73), AsWritten) == Some((Failing15(), true))
  {
    FailingBelow15();
  }

  lemma FailingBelow16()
    ensures TreeDelete(Failing15().tree.left, 20, AsWritten) ==
      Node(2, 2, 1, Node(4, 1, 2, Leaf, 10, Leaf), 30, Node(5, 1, 2, Leaf, 40, Leaf))
  {
  }

  lemma FailingStep16()
    ensures Step(Failing15(), Del(20), AsWritten) == Some((Failing16(), true))
  {
    FailingBelow16();
  }

  lemma FailingRun()
    ensures Run(Playing(FAILING[..16]), AsWritten) == Some(Failing16())
  {
    hide Run, Step, Playing, Failing1, Failing2, Failing3, Failing4, Failing5, Failing6, Failing7, Failing8, Failing9, Failing10, Failing11, Failing12, Failing13, Failing14, Failing15, Failing16;
    Nothing(FAILING);
    FailingStep1();
    Plays(FAILING, 0, EMPTY, Failing1());
    FailingStep2();
    Plays(FAILING, 1, Failing1(), Failing2());
    FailingStep3();
    Plays(FAILING, 2, Failing2(), Failing3());
    FailingStep4();
    Plays(FAILING, 3, Failing3(), Failing4());
    FailingStep5();
    Plays(FAILING, 4, Failing4(), Failing5());
    FailingStep6();
    Plays(FAILING, 5, Failing5(), Failing6());
    FailingStep7();
    Plays(FAILING, 6, Failing6(), Failing7());
    FailingStep8();
    Plays(FAILING, 7, Failing7(), Failing8());
    FailingStep9();
    Plays(FAILING, 8, Failing8(), Failing9());
    FailingStep10();
    Plays(FAILING, 9, Failing9(), Failing10());
    FailingStep11();
    Plays(FAILING, 10, Failing10(), Failing11());
    FailingStep12();
    Plays(FAILING, 11, Failing11(), Failing12());
    FailingStep13();
    Plays(FAILING, 12, Failing12(), Failing13());
    FailingStep14();
    Plays(FAILING, 13, Failing13(), Failing14());
    FailingStep15();
    Plays(FAILING, 14, Failing14(), Failing15());
    FailingStep16();
    Plays(FAILING, 15, Failing15(), Failing16());
  }

  /** The run completes and leaves a set that contains 90, in which inserting 90 throws. */
  lemma InsertThrows()
    ensures Run(Playing(FAILING), AsWritten).Some? && 90 in Vals(Run(Playing(FAILING), AsWritten).value.tree)
    ensures Run(Playing(FAILING + [Add(90)]), AsWritten).None?
  {
    FailingRun();
    assert FAILING[..16] == FAILING;
    assert (FAILING + [Add(90)])[..16] == FAILING;
    LastThrows();
  }

  lemma LastThrows()
    ensures Step(Failing16(), Add(90), AsWritten).None?
    ensures 90 in Vals(Failing16().tree)
  {
  }
}
