/**
 What each message does, and to whom: when it succeeds, which numbers it moves for
 its sender and for others, and what it leaves alone.  And what no message of anybody
 else can do to a holder, over runs of messages.
 */
module MessageLaws {
  import opened Wrappers
  import opened Buffers
  import opened Curves
  import opened KeySpace
  import opened Ledger
  import opened LedgerLaws

  /** Everything but the balances and supplies is as before. */
  ghost predicate OnlyAmounts(s: Store, s': Store) {
    forall f: Field :: !f.TokenBalance? && !f.TokenSupply? ==> SameAt(s, s', f)
  }

  /** Everything but the fields of one contract is as before. */
  ghost predicate OnlyFieldsOf(s: Store, s': Store, mark: Field) {
    forall f: Field :: Owner(f) != mark ==> SameAt(s, s', f)
  }

  // ---------------------------------------------------------------- message by message

  /** A mint credits its sender, whoever that is, and the supply. */
  lemma MintMessage(s: Store, user: string, t: string, v: nat)
    ensures var r := Handle(s, user, MintToken(t, v));
      && (r.Some? <==>
            && TokenMark(t) in s && Num(s, TokenBalance(t, user)) + v < LIMIT_256
            && Num(s, TokenSupply(t)) + v < LIMIT_256)
      && (r.Some? ==>
            && OnlyAmounts(s, r.value)
            && forall f :: Num(r.value, f) == Num(s, f) + On(f, TokenBalance(t, user), v) + On(f, TokenSupply(t), v))
  {
    MintMoves(s, t, user, v);
  }

  /** A transfer debits its sender and credits the destination, also when they are the same. */
  lemma TransferMessage(s: Store, user: string, t: string, dest: string, v: nat)
    requires Sane(s)
    ensures var r := Handle(s, user, TransferToken(t, dest, v));
      && (r.Some? <==>
            && TokenMark(t) in s && Num(s, TokenBalance(t, user)) >= v
            && (dest == user || Num(s, TokenBalance(t, dest)) + v < LIMIT_256))
      && (r.Some? ==>
            && OnlyAmounts(s, r.value)
            && forall f :: Num(r.value, f) == Num(s, f) - On(f, TokenBalance(t, user), v) + On(f, TokenBalance(t, dest), v))
  {
    TransferMoves(s, t, user, dest, v);
  }

  /** A buy pays the rise of the token's curve from its sender's balance in the token's base. */
  lemma BuyMessage(s: Store, user: string, t: string, v: nat, e: Eq, base: string)
    requires Sane(s) && TokenCurve(t) in s && s[TokenCurve(t)] == Price(e) && s[TokenBase(t)] == Name(base)
    ensures var (r, supply) := (Handle(s, user, BuyToken(t, v)), Num(s, TokenSupply(t)));
      && (r.Some? <==>
            && TokenMark(base) in s && supply + v < LIMIT_256 && RisesTo(e, supply, supply + v)
            && var cost := Apply(e, supply + v).value - Apply(e, supply).value;
               && cost <= Num(s, TokenBalance(base, user))
               && Num(s, TokenBalance(t, user)) + v - (if base == t then cost else 0) < LIMIT_256)
      && (r.Some? ==>
            && OnlyAmounts(s, r.value)
            && var cost := Apply(e, supply + v).value - Apply(e, supply).value;
               forall f :: Num(r.value, f) == Num(s, f) - On(f, TokenBalance(base, user), cost)
                                              + On(f, TokenBalance(t, user), v) + On(f, TokenSupply(t), v))
  {
    hide Apply, Sane, Market, Gap, Exchange;
    var supply := Num(s, TokenSupply(t));
    CurveFits(s, t, e, supply, supply + v);
    MarketIs(s, t, e, base);
    var cost := Gap(e, supply, supply + v);
    if cost.Some? && cost.value <= Num(s, TokenBalance(base, user)) && supply + v < LIMIT_256 {
      ExchangeMoves(s, t, base, user, v, cost.value);
    }
  }

  lemma ExchangeMoves(s: Store, t: string, base: string, who: string, v: nat, cost: nat)
    requires cost <= Num(s, TokenBalance(base, who))
    ensures var r := Exchange(s, t, base, who, v, cost);
      && (r.Some? <==> Num(s, TokenBalance(t, who)) + v - (if base == t then cost else 0) < LIMIT_256)
      && (r.Some? ==>
            && OnlyAmounts(s, r.value.store)
            && forall f :: Num(r.value.store, f) == Num(s, f) - On(f, TokenBalance(base, who), cost)
                                                    + On(f, TokenBalance(t, who), v) + On(f, TokenSupply(t), v))
  {
  }

  lemma PayOutMoves(s: Store, t: string, base: string, who: string, v: nat, gain: nat)
    requires v <= Num(s, TokenBalance(t, who)) && v <= Num(s, TokenSupply(t))
    ensures var r := PayOut(s, t, base, who, v, gain);
      && (r.Some? <==> Num(s, TokenBalance(base, who)) + gain - (if base == t then v else 0) < LIMIT_256)
      && (r.Some? ==>
            && OnlyAmounts(s, r.value.store)
            && forall f :: Num(r.value.store, f) == Num(s, f) + On(f, TokenBalance(base, who), gain)
                                                    - On(f, TokenBalance(t, who), v) - On(f, TokenSupply(t), v))
  {
  }

  /** A sale pays the fall of the curve into its sender's balance in the base. */
  lemma SellMessage(s: Store, user: string, t: string, v: nat, e: Eq, base: string)
    requires Sane(s) && TokenCurve(t) in s && s[TokenCurve(t)] == Price(e) && s[TokenBase(t)] == Name(base)
    ensures var (r, supply) := (Handle(s, user, SellToken(t, v)), Num(s, TokenSupply(t)));
      && (r.Some? <==>
            && TokenMark(base) in s && v <= Num(s, TokenBalance(t, user)) && v <= supply
            && RisesTo(e, supply - v, supply)
            && var gain := Apply(e, supply).value - Apply(e, supply - v).value;
               Num(s, TokenBalance(base, user)) + gain - (if base == t then v else 0) < LIMIT_256)
      && (r.Some? ==>
            && OnlyAmounts(s, r.value)
            && var gain := Apply(e, supply).value - Apply(e, supply - v).value;
               forall f :: Num(r.value, f) == Num(s, f) + On(f, TokenBalance(base, user), gain)
                                              - On(f, TokenBalance(t, user), v) - On(f, TokenSupply(t), v))
  {
    hide Apply, Sane, Market, Gap, PayOut;
    var supply := Num(s, TokenSupply(t));
    MarketIs(s, t, e, base);
    NumFits(s, TokenSupply(t));
    if v <= supply && v <= Num(s, TokenBalance(t, user)) {
      CurveFits(s, t, e, supply - v, supply);
      var gain := Gap(e, supply - v, supply);
      if gain.Some? {
        PayOutMoves(s, t, base, user, v, gain.value);
      }
    }
  }

  lemma MarketIs(s: Store, t: string, e: Eq, base: string)
    requires Sane(s) && TokenCurve(t) in s && s[TokenCurve(t)] == Price(e) && s[TokenBase(t)] == Name(base)
    ensures TokenMark(t) in s && Market(s, t) == if TokenMark(base) in s then Some((e, base)) else None
  {
    assert Owner(TokenCurve(t)) in s;
  }

  lemma CurveFits(s: Store, t: string, e: Eq, x: nat, y: nat)
    requires Sane(s) && TokenCurve(t) in s && s[TokenCurve(t)] == Price(e) && x <= y
    ensures y < LIMIT_256 ==> (Gap(e, x, y).Some? <==> RisesTo(e, x, y))
    ensures Gap(e, x, y).Some? ==> Gap(e, x, y).value == Apply(e, y).value - Apply(e, x).value
  {
    assert Tidy(TokenCurve(t), s[TokenCurve(t)]);
  }

  /** Without a curve a token is not traded. */
  lemma NoCurveNoTrade(s: Store, user: string, t: string, v: nat)
    requires TokenCurve(t) !in s
    ensures Handle(s, user, BuyToken(t, v)).None? && Handle(s, user, SellToken(t, v)).None?
  {
  }

  /** A new account has the given key and no nonce used; everything else is as before. */
  lemma CreateAccountMessage(s: Store, user: string, name: string, vk: seq<Byte>)
    ensures var r := Handle(s, user, CreateAccount(name, vk));
      && (r.Some? <==> AccountMark(name) !in s)
      && (r.Some? ==>
            && OnlyFieldsOf(s, r.value, AccountMark(name))
            && AccountMark(name) in r.value && r.value[AccountMark(name)] == Mark
            && AccountKey(name) in r.value && r.value[AccountKey(name)] == Key(vk)
            && AccountNonce(name) in r.value && r.value[AccountNonce(name)] == Number(0))
  {
  }

  /** A new token has the given base and curve, no supply and no holders; the base exists or is the token itself. */
  lemma CreateTokenMessage(s: Store, user: string, base: string, token: string, e: Eq)
    requires Sane(s)
    ensures var r := Handle(s, user, CreateToken(base, token, e));
      && (r.Some? <==> TokenMark(token) !in s && (base == token || TokenMark(base) in s))
      && (r.Some? ==>
            && OnlyFieldsOf(s, r.value, TokenMark(token))
            && TokenMark(token) in r.value && r.value[TokenMark(token)] == Mark
            && TokenCurve(token) in r.value && r.value[TokenCurve(token)] == Price(e)
            && TokenBase(token) in r.value && r.value[TokenBase(token)] == Name(base)
            && TokenSupply(token) in r.value && r.value[TokenSupply(token)] == Number(0)
            && forall h :: TokenBalance(token, h) !in r.value)
  {
    if TokenMark(token) !in s {
      forall h
        ensures TokenBalance(token, h) !in s
      {
        assert TokenBalance(token, h) in s ==> Owner(TokenBalance(token, h)) in s;
      }
    }
  }

  /** The two messages of the wiki always succeed and leave the store. */
  lemma WikiMessages(s: Store, user: string, e: Edge)
    ensures Handle(s, user, AddWikiEdge(e)) == Some(s) && Handle(s, user, RemoveWikiEdge(e)) == Some(s)
  {
  }

  /** A message that throws leaves the store, or the mark of a token whose base is missing. */
  lemma ThrowLeaves(s: Store, user: string, m: Msg)
    requires Handle(s, user, m).None?
    ensures var s' := Outcome(s, user, m);
            s' == s || (m.CreateToken? && TokenMark(m.base) !in s && TokenMark(m.token) !in s
                        && m.base != m.token && s' == s[TokenMark(m.token) := Mark])
  {
  }

  // ---------------------------------------------------------------- nobody else's message

  /** What a message gives to holder `h` of token `t`, when `h` is not its sender. */
  function Received(s: Store, user: string, m: Msg, t: string, h: string): nat {
    if m.TransferToken? && m.token == t && m.dest == h && Handle(s, user, m).Some? then m.value else 0
  }

  /** A message of somebody else changes a balance by what it transfers there, and in no other way. */
  lemma OthersOnlyGive(s: Store, user: string, m: Msg, t: string, h: string)
    requires Sane(s) && h != user
    ensures Num(Outcome(s, user, m), TokenBalance(t, h)) == Num(s, TokenBalance(t, h)) + Received(s, user, m, t, h)
  {
    hide Mint, Transfer, Buy, Sell, Sane;
    match m
    case MintToken(c, v) =>
      if Handle(s, user, m).Some? {
        MintKeepsOthers(s, c, user, v, t, h);
      }
    case TransferToken(c, d, v) =>
      if Handle(s, user, m).Some? {
        TransferGives(s, c, user, d, v, t, h);
      }
    case BuyToken(c, v) => TradeKeepsOthers(s, c, user, v, t, h);
    case SellToken(c, v) => TradeKeepsOthers(s, c, user, v, t, h);
    case _ =>
  }

  lemma MintKeepsOthers(s: Store, c: string, who: string, v: nat, t: string, h: string)
    requires h != who && Mint(s, c, who, v).Some?
    ensures Num(Mint(s, c, who, v).value, TokenBalance(t, h)) == Num(s, TokenBalance(t, h))
  {
    MintMoves(s, c, who, v);
  }

  lemma TransferGives(s: Store, c: string, who: string, d: string, v: nat, t: string, h: string)
    requires Sane(s) && h != who && Transfer(s, c, who, d, v).Some?
    ensures Num(Transfer(s, c, who, d, v).value, TokenBalance(t, h))
            == Num(s, TokenBalance(t, h)) + if c == t && d == h then v else 0
  {
    hide Transfer, Sane;
    TransferMoves(s, c, who, d, v);
  }

  lemma TradeKeepsOthers(s: Store, c: string, who: string, v: nat, t: string, h: string)
    requires h != who
    ensures Buy(s, c, who, v).Some? ==> Num(Buy(s, c, who, v).value.store, TokenBalance(t, h)) == Num(s, TokenBalance(t, h))
    ensures Sell(s, c, who, v).Some? ==> Num(Sell(s, c, who, v).value.store, TokenBalance(t, h)) == Num(s, TokenBalance(t, h))
  {
    hide Gap, Market;
  }

  /** What others gave to `h` from message `from` of a run on. */
  function ReceivedIn(run: seq<Sent>, from: nat, t: string, h: string): nat
    requires from <= |run|
  {
    if |run| == from then 0
    else
      var (before, last) := (run[..|run| - 1], run[|run| - 1]);
      ReceivedIn(before, from, t, h) + Received(Run(before), last.user, last.msg, t, h)
  }

  /** While a holder sends nothing, the balance grows by exactly what it is given, and never falls. */
  lemma {:induction false} RunOnlyGives(run: seq<Sent>, from: nat, t: string, h: string)
    requires AllAdmissible(run) && from <= |run|
    requires forall i :: from <= i < |run| ==> run[i].user != h
    ensures Num(Run(run), TokenBalance(t, h))
            == Num(Run(run[..from]), TokenBalance(t, h)) + ReceivedIn(run, from, t, h)
  {
    hide Outcome, Received, Sane;
    if |run| == from {
      assert run[..from] == run;
    } else {
      var (before, last) := (run[..|run| - 1], run[|run| - 1]);
      RunOnlyGives(before, from, t, h);
      RunStaysSane(before);
      OthersOnlyGive(Run(before), last.user, last.msg, t, h);
      assert before[..from] == run[..from];
    }
  }

  /** What exists is what it was: marks, keys, curves and bases are never changed or removed. */
  predicate Lasting(f: Field) {
    f.AccountMark? || f.AccountKey? || f.TokenMark? || f.TokenCurve? || f.TokenBase?
  }

  lemma LastingStays(s: Store, user: string, m: Msg, f: Field)
    requires Sane(s) && f in s && Lasting(f)
    ensures f in Outcome(s, user, m) && Outcome(s, user, m)[f] == s[f]
  {
    hide Mint, Transfer, Buy, Sell, OnlyAmounts;
    assert Owner(f) in s;
    if Created(m).None? && Handle(s, user, m).Some? {
      AmountsOnly(s, user, m);
      SameInLasting(s, Handle(s, user, m).value, f);
    }
  }

  lemma SameInLasting(s: Store, s': Store, f: Field)
    requires OnlyAmounts(s, s') && Lasting(f)
    ensures SameAt(s, s', f)
  {
  }

  /** Only the creating messages change anything but amounts. */
  lemma AmountsOnly(s: Store, user: string, m: Msg)
    requires Sane(s) && Created(m).None? && Handle(s, user, m).Some?
    ensures OnlyAmounts(s, Handle(s, user, m).value)
  {
    hide Mint, Transfer, Buy, Sell;
    match m
    case MintToken(c, v) => MintMessage(s, user, c, v);
    case TransferToken(c, d, v) => TransferMessage(s, user, c, d, v);
    case BuyToken(c, v) => TradeKeepsLasting(s, c, user, v);
    case SellToken(c, v) => TradeKeepsLasting(s, c, user, v);
    case _ =>
  }

  lemma TradeKeepsLasting(s: Store, t: string, who: string, v: nat)
    ensures Buy(s, t, who, v).Some? ==> OnlyAmounts(s, Buy(s, t, who, v).value.store)
    ensures Sell(s, t, who, v).Some? ==> OnlyAmounts(s, Sell(s, t, who, v).value.store)
  {
    hide Gap, Market;
  }
}
