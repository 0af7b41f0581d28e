/**
 Solvency: while tokens on rising curves are only bought, sold and transferred,
 and only the root token is minted, what a token has locked depends on its supply
 alone, and every holder can sell everything they hold.
 */
module Solvency {
  import opened Wrappers
  import opened Buffers
  import opened Curves
  import opened KeySpace
  import opened Ledger
  import opened LedgerLaws

  /** A curve that never falls and that has a value at zero. */
  ghost predicate Sound(e: Eq) {
    Rising(e) && Apply(e, 0).Some?
  }

  /** Only the root is minted; every other token is traded on a sound curve. */
  ghost predicate Allowed(root: string, m: Msg) {
    match m
    case CreateToken(_, t, c) => t != root ==> Sound(c)
    case MintToken(t, _) => t == root
    case BuyToken(t, _) => t != root
    case SellToken(t, _) => t != root
    case _ => true
  }

  function CurveOf(s: Store, c: string): Eq
    requires TokenCurve(c) in s && s[TokenCurve(c)].Price?
  {
    s[TokenCurve(c)].curve
  }

  /** The token can be traded, and exactly C(supply) - C(0) is locked in it. */
  ghost predicate Priced(s: Store, locked: Locked, c: string) {
    && Market(s, c).Some?
    && var (e, supply) := (CurveOf(s, c), Num(s, TokenSupply(c)));
       && Sound(e) && Apply(e, supply).Some?
       && At(locked, c) == Apply(e, supply).value - Apply(e, 0).value
  }

  ghost predicate Solvent(root: string, s: Store, locked: Locked) {
    forall c :: TokenBase(c) in s ==> if c == root then At(locked, c) == 0 else Priced(s, locked, c)
  }

  // ---------------------------------------------------------------- what solvency gives

  /** Rising, read off at two points. */
  lemma RisesBetween(e: Eq, x: nat, y: nat)
    requires Rising(e) && x <= y < LIMIT_256 && Apply(e, y).Some?
    ensures Apply(e, x).Some? && Apply(e, x).value <= Apply(e, y).value
  {
    assert RisesTo(e, x, y);
  }

  lemma LockedIsPositive(root: string, s: Store, locked: Locked, c: string)
    requires Sane(s) && Solvent(root, s, locked) && TokenBase(c) in s
    ensures At(locked, c) >= 0
  {
    hide Sane;
    if c != root {
      NumFits(s, TokenSupply(c));
      assert Priced(s, locked, c);
      RisesBetween(CurveOf(s, c), 0, Num(s, TokenSupply(c)));
    }
  }

  /** A balance and a locked amount never exceed the supply of the token they are held in. */
  lemma BalanceAndLockFit(root: string, s: Store, locked: Locked, t: string, who: string, c: string)
    requires Sane(s) && Conserved(s, locked) && Solvent(root, s, locked)
    ensures Num(s, TokenBalance(t, who)) <= Num(s, TokenSupply(t))
    ensures TokenBase(c) in s && s[TokenBase(c)] == Name(t) ==>
              Num(s, TokenBalance(t, who)) + At(locked, c) <= Num(s, TokenSupply(t))
  {
    hide Priced;
    forall b | b in Backed(s, locked, t)
      ensures Backed(s, locked, t)[b] >= 0
    {
      LockedIsPositive(root, s, locked, b);
    }
    SumAtLeast(Balances(s, t), TokenBalance(t, who));
    SumAtLeast(Backed(s, locked, t), c);
    assert At(Balances(s, t), TokenBalance(t, who)) == Num(s, TokenBalance(t, who));
  }

  /** Any holder can sell any amount up to their balance. */
  lemma CanAlwaysSell(root: string, s: Store, locked: Locked, user: string, t: string, v: nat)
    requires Sane(s) && Conserved(s, locked) && Solvent(root, s, locked)
    requires TokenBase(t) in s && t != root && v <= Num(s, TokenBalance(t, user))
    ensures Handle(s, user, SellToken(t, v)).Some?
  {
    hide Conserved, Solvent, Rising, Sane, Wordy, PayOut, Gap, Apply;
    SolventAt(root, s, locked, t);
    var (e, base) := Market(s, t).value;
    var supply := Num(s, TokenSupply(t));
    BalanceAndLockFit(root, s, locked, t, user, t);
    BalanceAndLockFit(root, s, locked, base, user, t);
    TraderFits(s, t);
    FallFits(e, supply - v, supply);
    NumFits(s, TokenSupply(base));
    PayOutFits(s, t, base, user, v, Gap(e, supply - v, supply).value);
  }

  /** On a sound curve a fall is defined and is never more than the whole way down to zero. */
  lemma FallFits(e: Eq, from: nat, to: nat)
    requires Sound(e) && from <= to < LIMIT_256 && Apply(e, to).Some? && Apply(e, to).value < LIMIT_256
    ensures Gap(e, from, to).Some? && Gap(e, from, to).value <= Apply(e, to).value - Apply(e, 0).value
  {
    hide Apply, Rising;
    RisesBetween(e, from, to);
    RisesBetween(e, 0, from);
  }

  lemma PayOutFits(s: Store, t: string, base: string, who: string, v: nat, gain: nat)
    requires v <= Num(s, TokenBalance(t, who)) && v <= Num(s, TokenSupply(t))
    requires Num(s, TokenBalance(base, who)) + gain < LIMIT_256
    ensures PayOut(s, t, base, who, v, gain).Some?
  {
  }

  lemma SolventAt(root: string, s: Store, locked: Locked, t: string)
    requires Solvent(root, s, locked) && TokenBase(t) in s
    ensures if t == root then At(locked, t) == 0 else Priced(s, locked, t)
  {
  }

  /** A buy goes through exactly when the new supply fits and has a price, and the buyer can pay it. */
  lemma CanBuyIff(root: string, s: Store, locked: Locked, user: string, t: string, v: nat)
    requires Sane(s) && Conserved(s, locked) && Solvent(root, s, locked)
    requires TokenBase(t) in s && t != root
    ensures Handle(s, user, BuyToken(t, v)).Some? <==>
            var (e, base, supply) := (CurveOf(s, t), s[TokenBase(t)].s, Num(s, TokenSupply(t)));
            && supply + v < LIMIT_256 && Apply(e, supply + v).Some?
            && Apply(e, supply + v).value - Apply(e, supply).value <= Num(s, TokenBalance(base, user))
  {
    hide Conserved, Solvent, Rising, Sane, Wordy;
    SolventAt(root, s, locked, t);
    var (e, base) := Market(s, t).value;
    var supply := Num(s, TokenSupply(t));
    BalanceAndLockFit(root, s, locked, t, user, t);
    TraderFits(s, t);
    if supply + v < LIMIT_256 && Apply(e, supply + v).Some? {
      RisesBetween(e, supply, supply + v);
    }
  }

  lemma TraderFits(s: Store, t: string)
    requires Sane(s) && TokenBase(t) in s
    ensures TokenMark(t) in s && Num(s, TokenSupply(t)) < LIMIT_256
    ensures TokenCurve(t) in s ==>
              forall x: nat :: x < LIMIT_256 && Apply(CurveOf(s, t), x).Some? ==> Apply(CurveOf(s, t), x).value < LIMIT_256
  {
    NumFits(s, TokenSupply(t));
    assert Owner(TokenBase(t)) in s;
    if TokenCurve(t) in s {
      assert Tidy(TokenCurve(t), s[TokenCurve(t)]);
    }
  }

  // ---------------------------------------------------------------- what keeps it

  /** A token nobody traded keeps its price. */
  lemma StaysPriced(s: Store, s': Store, locked: Locked, locked': Locked, c: string)
    requires Priced(s, locked, c)
    requires TokenCurve(c) in s' && s'[TokenCurve(c)] == s[TokenCurve(c)]
    requires TokenBase(c) in s' && s'[TokenBase(c)] == s[TokenBase(c)]
    requires Num(s', TokenSupply(c)) == Num(s, TokenSupply(c)) && At(locked', c) == At(locked, c)
    requires s.Keys <= s'.Keys
    ensures Priced(s', locked', c)
  {
    hide Sound;
  }

  /** The fields that fix a token's price, apart from its supply. */
  ghost predicate SameTerms(s: Store, s': Store) {
    && s.Keys <= s'.Keys
    && forall f: Field :: (f.TokenCurve? || f.TokenBase?) ==> (f in s' <==> f in s) && (f in s ==> s'[f] == s[f])
  }

  /** A message about one token leaves the others solvent. */
  lemma OthersStaySolvent(root: string, s: Store, s': Store, locked: Locked, locked': Locked, c: string)
    requires Solvent(root, s, locked) && SameTerms(s, s')
    requires forall b :: b != c ==> Num(s', TokenSupply(b)) == Num(s, TokenSupply(b)) && At(locked', b) == At(locked, b)
    requires TokenBase(c) in s ==> if c == root then At(locked', c) == 0 else Priced(s', locked', c)
    ensures Solvent(root, s', locked')
  {
    hide Priced;
    forall b | TokenBase(b) in s'
      ensures if b == root then At(locked', b) == 0 else Priced(s', locked', b)
    {
      if b != c && b != root {
        assert Priced(s, locked, b);
        PricedTerms(s, locked, b);
        StaysPriced(s, s', locked, locked', b);
      }
    }
  }

  lemma PricedTerms(s: Store, locked: Locked, c: string)
    requires Priced(s, locked, c)
    ensures TokenCurve(c) in s && TokenBase(c) in s
  {
  }

  /** Buying moves the locked amount up the curve, by as much as the supply moves. */
  lemma BuyStaysSolvent(root: string, s: Store, locked: Locked, user: string, c: string, v: nat)
    requires Solvent(root, s, locked) && c != root && Buy(s, c, user, v).Some?
    ensures var bought := Buy(s, c, user, v).value;
            Solvent(root, bought.store, locked[c := At(locked, c) + bought.paid])
  {
    hide Sound, Solvent, Apply, Operate;
    var bought := Buy(s, c, user, v).value;
    SolventAt(root, s, locked, c);
    OthersStaySolvent(root, s, bought.store, locked, locked[c := At(locked, c) + bought.paid], c);
  }

  /** Selling moves it down again. */
  lemma SellStaysSolvent(root: string, s: Store, locked: Locked, user: string, c: string, v: nat)
    requires Solvent(root, s, locked) && c != root && Sell(s, c, user, v).Some?
    ensures var sold := Sell(s, c, user, v).value;
            Solvent(root, sold.store, locked[c := At(locked, c) - sold.paid])
  {
    hide Sound, Solvent, Apply, Operate;
    var sold := Sell(s, c, user, v).value;
    SolventAt(root, s, locked, c);
    OthersStaySolvent(root, s, sold.store, locked, locked[c := At(locked, c) - sold.paid], c);
  }

  lemma NewToken(root: string, s: Store, locked: Locked, user: string, m: Msg)
    requires Sane(s) && Conserved(s, locked) && Solvent(root, s, locked) && Admissible(user, m) && Allowed(root, m)
    requires m.CreateToken? && TokenMark(m.token) !in s
    ensures Solvent(root, Outcome(s, user, m), locked)
  {
    hide Sound, Priced, Accounted, IsIdent;
    var (c, s') := (m.token, Outcome(s, user, m));
    Unborn(s, locked, c);
    forall b | TokenBase(b) in s'
      ensures if b == root then At(locked, b) == 0 else Priced(s', locked, b)
    {
      if b != c {
        SolventAt(root, s, locked, b);
        if b != root {
          PricedTerms(s, locked, b);
          StaysPriced(s, s', locked, locked, b);
        }
      } else if b != root {
        StartsPriced(s', locked, c);
      }
    }
  }

  lemma StartsPriced(s: Store, locked: Locked, c: string)
    requires Market(s, c).Some? && Sound(CurveOf(s, c)) && Num(s, TokenSupply(c)) == 0 && At(locked, c) == 0
    ensures Priced(s, locked, c)
  {
  }

  lemma OutcomeStaysSolvent(root: string, s: Store, locked: Locked, user: string, m: Msg)
    requires Sane(s) && Conserved(s, locked) && Solvent(root, s, locked) && Admissible(user, m) && Allowed(root, m)
    ensures Solvent(root, Outcome(s, user, m), Relock(s, locked, user, m))
  {
    hide Solvent, Sane, Conserved, Sound, Priced, Mint, Buy, Sell, Transfer;
    if m.BuyToken? && Handle(s, user, m).Some? {
      BuyStaysSolvent(root, s, locked, user, m.token, m.value);
    } else if m.SellToken? && Handle(s, user, m).Some? {
      SellStaysSolvent(root, s, locked, user, m.token, m.value);
    } else if m.CreateToken? && TokenMark(m.token) !in s {
      NewToken(root, s, locked, user, m);
    } else if (m.MintToken? || m.TransferToken?) && Handle(s, user, m).Some? {
      IssueStaysSolvent(root, s, locked, user, m);
    } else if m.CreateAccount? && Handle(s, user, m).Some? {
      SolventAtRoot(root, s, locked);
      OthersStaySolvent(root, s, Outcome(s, user, m), locked, locked, root);
    }
  }

  lemma SolventAtRoot(root: string, s: Store, locked: Locked)
    requires Solvent(root, s, locked)
    ensures TokenBase(root) in s ==> At(locked, root) == 0
  {
  }

  lemma IssueStaysSolvent(root: string, s: Store, locked: Locked, user: string, m: Msg)
    requires Solvent(root, s, locked) && Allowed(root, m)
    requires (m.MintToken? || m.TransferToken?) && Handle(s, user, m).Some?
    ensures Solvent(root, Handle(s, user, m).value, locked)
  {
    hide Solvent, Sound, Priced;
    SolventAtRoot(root, s, locked);
    OthersStaySolvent(root, s, Handle(s, user, m).value, locked, locked, root);
  }

  // ---------------------------------------------------------------- over runs

  ghost predicate Disciplined(root: string, run: seq<Sent>) {
    AllAdmissible(run) && forall i :: 0 <= i < |run| ==> Allowed(root, run[i].msg)
  }

  lemma {:induction false} RunStaysSolvent(root: string, run: seq<Sent>)
    requires Disciplined(root, run)
    ensures Solvent(root, Run(run), LockedIn(run))
  {
    hide Solvent, Outcome, Relock;
    if run == [] {
      NothingSolvent(root);
    } else {
      var (before, last) := (run[..|run| - 1], run[|run| - 1]);
      RunStaysSane(before);
      RunConserves(before);
      RunStaysSolvent(root, before);
      OutcomeStaysSolvent(root, Run(before), LockedIn(before), last.user, last.msg);
    }
  }

  lemma NothingSolvent(root: string)
    ensures Solvent(root, map[], map[])
  {
  }

  /** However the supply got where it is, the base locked in a token is C(supply) - C(0). */
  lemma LockedIsPathless(root: string, run: seq<Sent>, c: string)
    requires Disciplined(root, run) && c != root && TokenBase(c) in Run(run)
    ensures Market(Run(run), c).Some?
    ensures var (e, supply) := (CurveOf(Run(run), c), Num(Run(run), TokenSupply(c)));
            && Apply(e, supply).Some? && Apply(e, 0).Some?
            && At(LockedIn(run), c) == Apply(e, supply).value - Apply(e, 0).value
  {
    RunStaysSolvent(root, run);
    SolventAt(root, Run(run), LockedIn(run), c);
  }

  /** After every such run, every holder can sell back any part of what they hold. */
  lemma RunCanAlwaysSell(root: string, run: seq<Sent>, user: string, t: string, v: nat)
    requires Disciplined(root, run) && t != root && TokenBase(t) in Run(run)
    requires v <= Num(Run(run), TokenBalance(t, user))
    ensures Handle(Run(run), user, SellToken(t, v)).Some?
  {
    hide Handle, Solvent;
    RunStaysSane(run);
    RunConserves(run);
    RunStaysSolvent(root, run);
    CanAlwaysSell(root, Run(run), LockedIn(run), user, t, v);
  }

  lemma RunAppends(run: seq<Sent>, last: Sent)
    ensures Run(run + [last]) == Outcome(Run(run), last.user, last.msg)
  {
    assert (run + [last])[..|run|] == run;
  }

  /** A token just created on the root. */
  lemma CreatedOnRoot(root: string, t: string, curve: Eq)
    requires root != t
    ensures var s := Outcome(Outcome(map[], "", CreateToken(root, root, Variable)), "", CreateToken(root, t, curve));
            && TokenMark(t) in s && TokenBase(t) in s && Market(s, t) == Some((curve, root))
            && Num(s, TokenSupply(t)) == 0
            && forall who :: Num(s, TokenBalance(t, who)) == 0 && Num(s, TokenBalance(root, who)) == 0
  {
  }

  /** On a token that starts on the curve `e`, `y` tokens minted at once can be sold down to `x` exactly when the curve rises from `x` to `y`. */
  lemma MintedSale(s: Store, t: string, root: string, user: string, e: Eq, x: nat, y: nat)
    requires TokenMark(t) in s && TokenBase(t) in s && Market(s, t) == Some((e, root)) && t != root && Wordy(e)
    requires Num(s, TokenSupply(t)) == 0 && Num(s, TokenBalance(t, user)) == Num(s, TokenBalance(root, user)) == 0
    requires x <= y < LIMIT_256
    ensures var s' := Outcome(s, user, MintToken(t, y));
            && TokenBase(t) in s' && Num(s', TokenBalance(t, user)) == y
            && (Handle(s', user, SellToken(t, y - x)).Some? <==> RisesTo(e, x, y))
  {
    hide Apply;
    var s' := Outcome(s, user, MintToken(t, y));
    assert Market(s', t) == Some((e, root)) && Num(s', TokenSupply(t)) == y;
    GapIffRises(e, x, y);
  }

  lemma GapIffRises(e: Eq, x: nat, y: nat)
    requires Wordy(e) && x <= y < LIMIT_256
    ensures Gap(e, x, y).Some? <==> RisesTo(e, x, y)
  {
  }

  /**
   The rising condition is exact when minting is allowed: create a token on any curve and mint `y` of it;
   the holder can sell `y - x` if and only if the curve rises from `x` to `y`.
   */
  lemma SaleIffRises(root: string, t: string, user: string, e: Eq, x: nat, y: nat)
    requires root != t && Wordy(e) && x <= y < LIMIT_256
    ensures var run := [Sent("", CreateToken(root, root, Variable)), Sent("", CreateToken(root, t, e)),
                        Sent(user, MintToken(t, y))];
            && TokenBase(t) in Run(run) && Num(Run(run), TokenBalance(t, user)) == y
            && (Handle(Run(run), user, SellToken(t, y - x)).Some? <==> RisesTo(e, x, y))
  {
    hide Run, Outcome, Handle, Market;
    var a := Sent("", CreateToken(root, root, Variable));
    var b := Sent("", CreateToken(root, t, e));
    NothingRuns();
    RunAppends([], a);
    RunAppends([a], b);
    var c := Sent(user, MintToken(t, y));
    RunAppends([a, b], c);
    assert [] + [a] == [a] && [a] + [b] == [a, b] && [a, b] + [c] == [a, b, c];
    CreatedOnRoot(root, t, e);
    MintedSale(Run([a, b]), t, root, user, e, x, y);
  }

  lemma NothingRuns()
    ensures Run([]) == map[]
  {
  }

  // ---------------------------------------------------------------- buying and selling undo each other

  /** The assignments of a sale take back those of a buy at the same price. */
  lemma PayOutUndoesExchange(s: Store, t: string, base: string, who: string, v: nat, cost: nat)
    requires cost <= Num(s, TokenBalance(base, who)) < LIMIT_256 && Exchange(s, t, base, who, v, cost).Some?
    ensures var x := Exchange(s, t, base, who, v, cost).value.store;
            && Market(x, t) == Market(s, t)
            && Num(x, TokenSupply(t)) == Num(s, TokenSupply(t)) + v && Num(x, TokenBalance(t, who)) >= v
            && PayOut(x, t, base, who, v, cost).Some?
            && forall f :: Num(PayOut(x, t, base, who, v, cost).value.store, f) == Num(s, f)
  {
  }

  lemma ExchangeUndoesPayOut(s: Store, t: string, base: string, who: string, v: nat, gain: nat)
    requires v <= Num(s, TokenSupply(t)) && v <= Num(s, TokenBalance(t, who)) < LIMIT_256
    requires PayOut(s, t, base, who, v, gain).Some?
    ensures var x := PayOut(s, t, base, who, v, gain).value.store;
            && Market(x, t) == Market(s, t)
            && Num(x, TokenSupply(t)) == Num(s, TokenSupply(t)) - v && Num(x, TokenBalance(base, who)) >= gain
            && Exchange(x, t, base, who, v, gain).Some?
            && forall f :: Num(Exchange(x, t, base, who, v, gain).value.store, f) == Num(s, f)
  {
  }

  /** Selling what was just bought succeeds on every curve, pays back the price, and restores every number. */
  lemma SellUndoesBuy(s: Store, user: string, t: string, v: nat)
    requires Sane(s) && Buy(s, t, user, v).Some?
    ensures var bought := Buy(s, t, user, v).value;
            && Sell(bought.store, t, user, v).Some?
            && var sold := Sell(bought.store, t, user, v).value;
               && sold.paid == bought.paid
               && forall f :: Num(sold.store, f) == Num(s, f)
  {
    hide Sane, Gap, Market, Exchange, PayOut;
    var (e, base) := Market(s, t).value;
    NumFits(s, TokenBalance(base, user));
    var cost := Gap(e, Num(s, TokenSupply(t)), Num(s, TokenSupply(t)) + v).value;
    PayOutUndoesExchange(s, t, base, user, v, cost);
    PaidIs(s, t, base, user, v, cost);
    GainIs(Buy(s, t, user, v).value.store, t, base, user, v, cost);
  }

  /** And the other way round: buying back what was just sold. */
  lemma BuyUndoesSell(s: Store, user: string, t: string, v: nat)
    requires Sane(s) && Sell(s, t, user, v).Some?
    ensures var sold := Sell(s, t, user, v).value;
            && Buy(sold.store, t, user, v).Some?
            && var bought := Buy(sold.store, t, user, v).value;
               && bought.paid == sold.paid
               && forall f :: Num(bought.store, f) == Num(s, f)
  {
    hide Sane, Gap, Market, Exchange, PayOut;
    var (e, base) := Market(s, t).value;
    NumFits(s, TokenSupply(t));
    NumFits(s, TokenBalance(t, user));
    var gain := Gap(e, Num(s, TokenSupply(t)) - v, Num(s, TokenSupply(t))).value;
    ExchangeUndoesPayOut(s, t, base, user, v, gain);
    PaidIs(Sell(s, t, user, v).value.store, t, base, user, v, gain);
    GainIs(s, t, base, user, v, gain);
  }

  lemma PaidIs(s: Store, t: string, base: string, who: string, v: nat, cost: nat)
    requires cost <= Num(s, TokenBalance(base, who)) && Exchange(s, t, base, who, v, cost).Some?
    ensures Exchange(s, t, base, who, v, cost).value.paid == cost
  {
  }

  lemma GainIs(s: Store, t: string, base: string, who: string, v: nat, gain: nat)
    requires v <= Num(s, TokenSupply(t)) && v <= Num(s, TokenBalance(t, who))
    requires PayOut(s, t, base, who, v, gain).Some?
    ensures PayOut(s, t, base, who, v, gain).value.paid == gain
  {
  }
}
