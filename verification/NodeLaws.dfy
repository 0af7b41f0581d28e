/**
 What every run of a node keeps for its users: balances that only their holder can
 lower, keys, curves and bases that last, and the terms of the root token that the
 genesis sets up.
 */
module NodeLaws {
  import opened Wrappers
  import opened Buffers
  import opened KeySpace
  import opened Ledger
  import opened MessageLaws
  import opened Chain
  import opened ChainLaws
  import ChainRuns
  import LedgerLaws
  import Curves
  import TxCodec
  import ValueCodec

  // ---------------------------------------------------------------- nobody else's transaction

  /** The event lets `user` act: a transaction of theirs that can be read. */
  predicate ActsFor(e: Event, user: string) {
    e.ApplyTx? && e.raw.Whole? && e.raw.user == user
  }

  lemma StepOnlyGives(n: Node, e: Event, t: string, h: string)
    requires Settled(n) && RawOk(e) && !ActsFor(e, h)
    ensures Num(Next(n, e).applied, TokenBalance(t, h)) >= Num(n.applied, TokenBalance(t, h))
  {
    hide Outcome, Next, Sane, Validate;
    hide ChainRuns.SameLedger;
    ChainRuns.StepIsOutcome(n, e);
    if e.ApplyTx? && e.raw.Whole? && Validate(n, Applying, e.raw.user, e.raw.nonce).ok {
      OthersOnlyGive(n.applied, e.raw.user, e.raw.msg, t, h);
      ChainRuns.SameNum(Next(n, e).applied, Outcome(n.applied, e.raw.user, e.raw.msg), TokenBalance(t, h));
    } else {
      ChainRuns.SameNum(Next(n, e).applied, n.applied, TokenBalance(t, h));
    }
  }

  /** On a running node a balance never falls while its holder has no transaction applied, whatever else happens. */
  lemma {:induction false} NoTransactionNoLoss(g: Genesis, events: seq<Event>, from: nat, t: string, h: string)
    requires IsGenesis(g) && Readable(events) && from <= |events|
    requires forall i :: from <= i < |events| ==> !ActsFor(events[i], h)
    ensures Num(Run(g, events).applied, TokenBalance(t, h)) >= Num(Run(g, events[..from]).applied, TokenBalance(t, h))
  {
    hide Next, Settled, ActsFor, RawOk;
    if |events| == from {
      assert events[..from] == events;
    } else {
      var (before, last) := (events[..|events| - 1], events[|events| - 1]);
      NoTransactionNoLoss(g, before, from, t, h);
      RunSettled(g, before);
      StepOnlyGives(Run(g, before), last, t, h);
      assert before[..from] == events[..from];
    }
  }

  lemma StepKeepsLasting(n: Node, e: Event, f: Field)
    requires Settled(n) && RawOk(e) && f in n.applied && Lasting(f)
    ensures f in Next(n, e).applied && Next(n, e).applied[f] == n.applied[f]
  {
    hide Outcome, Next, Sane, Validate;
    ChainRuns.StepIsOutcome(n, e);
    if e.ApplyTx? && e.raw.Whole? && Validate(n, Applying, e.raw.user, e.raw.nonce).ok {
      LastingStays(n.applied, e.raw.user, e.raw.msg, f);
      assert SameAt(Next(n, e).applied, Outcome(n.applied, e.raw.user, e.raw.msg), f);
    } else {
      assert SameAt(Next(n, e).applied, n.applied, f);
    }
  }

  /** On a running node, once a contract exists its key, its curve and its base stay what they are. */
  lemma {:induction false} LastingForever(g: Genesis, events: seq<Event>, from: nat, f: Field)
    requires IsGenesis(g) && Readable(events) && from <= |events|
    requires f in Run(g, events[..from]).applied && Lasting(f)
    ensures f in Run(g, events).applied
            && Run(g, events).applied[f] == Run(g, events[..from]).applied[f]
  {
    hide Next, Settled, Lasting, RawOk;
    if |events| == from {
      assert events[..from] == events;
    } else {
      var (before, last) := (events[..|events| - 1], events[|events| - 1]);
      assert before[..from] == events[..from];
      LastingForever(g, before, from, f);
      RunSettled(g, before);
      StepKeepsLasting(Run(g, before), last, f);
    }
  }

  // ---------------------------------------------------------------- the root token

  /** The token is its own base, and `x` of it are worth `x`. */
  ghost predicate SelfPriced(s: Store, t: string) {
    && TokenMark(t) in s && TokenBase(t) in s && s[TokenBase(t)] == Name(t)
    && TokenCurve(t) in s && s[TokenCurve(t)].Price?
    && forall x: nat :: x < LIMIT_256 ==> Curves.Apply(s[TokenCurve(t)].curve, x) == Some(x)
  }

  /** The genesis holds one account that has used no nonce, a self-priced root token without supply, and nothing else. */
  lemma GenesisIs(g: Genesis)
    requires IsGenesis(g)
    ensures Start(g).checked == Start(g).applied && Start(g).mode == None && Start(g).pending == map[]
    ensures var (s, a, r) := (Start(g).applied, g.account, g.token);
      && s.Keys == {AccountMark(a), AccountKey(a), AccountNonce(a), TokenMark(r), TokenCurve(r), TokenBase(r), TokenSupply(r)}
      && s[AccountMark(a)] == Mark && s[AccountKey(a)] == Key(g.vk) && s[AccountNonce(a)] == Number(0)
      && s[TokenMark(r)] == Mark && s[TokenSupply(r)] == Number(0) && SelfPriced(s, r)
  {
  }

  /** The root token stays self-priced in every run. */
  lemma RootStaysSelfPriced(g: Genesis, events: seq<Event>)
    requires IsGenesis(g) && Readable(events)
    ensures SelfPriced(Run(g, events).applied, g.token)
  {
    hide Next;
    GenesisIs(g);
    assert events[..0] == [];
    LastingForever(g, events, 0, TokenMark(g.token));
    LastingForever(g, events, 0, TokenBase(g.token));
    LastingForever(g, events, 0, TokenCurve(g.token));
  }

  /** Buying and selling a self-priced token leaves every balance: only the supply moves. */
  lemma SelfPricedTrades(s: Store, t: string, user: string, v: nat)
    requires Sane(s) && SelfPriced(s, t)
    ensures var r := Handle(s, user, BuyToken(t, v));
      && (r.Some? <==> v <= Num(s, TokenBalance(t, user)) && Num(s, TokenSupply(t)) + v < LIMIT_256)
      && (r.Some? ==> forall f :: Num(r.value, f) == Num(s, f) + LedgerLaws.On(f, TokenSupply(t), v))
    ensures var r := Handle(s, user, SellToken(t, v));
      && (r.Some? <==> v <= Num(s, TokenBalance(t, user)) && v <= Num(s, TokenSupply(t)))
      && (r.Some? ==> forall f :: Num(r.value, f) == Num(s, f) - LedgerLaws.On(f, TokenSupply(t), v))
  {
    hide Handle, Sane, Curves.Apply;
    var e := s[TokenCurve(t)].curve;
    NumFits(s, TokenBalance(t, user));
    NumFits(s, TokenSupply(t));
    BuyMessage(s, user, t, v, e, t);
    SellMessage(s, user, t, v, e, t);
  }

  /**
   In every run the root token costs its buyer as much of itself as it gives: the buy needs `v` of it,
   leaves every balance, and raises the supply by `v`; a sale lowers it again.
   */
  lemma RootTrades(g: Genesis, events: seq<Event>, user: string, v: nat)
    requires IsGenesis(g) && Readable(events)
    ensures var (s, t) := (Run(g, events).applied, g.token);
            var (bought, sold) := (Handle(s, user, BuyToken(t, v)), Handle(s, user, SellToken(t, v)));
      && (bought.Some? <==> v <= Num(s, TokenBalance(t, user)) && Num(s, TokenSupply(t)) + v < LIMIT_256)
      && (bought.Some? ==> forall f :: Num(bought.value, f) == Num(s, f) + LedgerLaws.On(f, TokenSupply(t), v))
      && (sold.Some? <==> v <= Num(s, TokenBalance(t, user)) && v <= Num(s, TokenSupply(t)))
      && (sold.Some? ==> forall f :: Num(sold.value, f) == Num(s, f) - LedgerLaws.On(f, TokenSupply(t), v))
  {
    hide Handle, SelfPriced;
    RunSettled(g, events);
    RootStaysSelfPriced(g, events);
    SelfPricedTrades(Run(g, events).applied, g.token, user, v);
  }

  // ---------------------------------------------------------------- from the bytes to the store

  /**
   Checking bytes: whatever follows the nonce, the transaction is accepted exactly when its sender has an
   account and its nonce is larger than the stored and the pending one; then that nonce is pending, and no
   store has changed.
   */
  lemma CheckOfBytes(n: Node, u: string, sig: seq<Byte>, k: nat, rest: seq<Byte>)
    requires Settled(n) && IsIdent(u) && |sig| == 64 && k < 0x1_0000_0000_0000_0000
    ensures var r := Check(n, TxCodec.ReadTx(ValueCodec.WriteIdent(u) + sig + Varint(k) + rest));
      && (r.ok <==> AccountMark(u) in n.applied && k > Num(n.applied + n.pending, AccountNonce(u)))
      && r.node.applied == n.applied && r.node.checked == n.checked && r.node.mode == Some(Checking)
      && r.node.pending == if r.ok then n.pending[AccountNonce(u) := Number(k)] else n.pending
  {
    hide TxCodec.ReadTx, Settled, ValueCodec.WriteIdent, Varint, IsIdent;
    TxCodec.ReadsHeader(u, sig, k, rest);
    ValidateSettled(n, Checking, u, k);
  }

  /**
   Applying the bytes of a transfer: it takes effect exactly when the sender has an account, the nonce is larger, the
   token exists, the sender holds the amount and the sum of the destination fits; then that amount has moved, the
   nonce is stored, and no other number but pending nonces; otherwise the apply store is as before.
   */
  lemma TransferOfBytes(n: Node, u: string, sig: seq<Byte>, k: nat, t: string, dest: string, v: nat, rest: seq<Byte>)
    requires Settled(n) && IsIdent(u) && |sig| == 64 && k < 0x1_0000_0000_0000_0000
    requires IsIdent(t) && IsIdent(dest) && v < LIMIT_256
    ensures var tx := ValueCodec.WriteIdent(u) + sig + Varint(k) + [3]
                      + (ValueCodec.WriteIdent(t) + ValueCodec.WriteIdent(dest) + Varint(v) + rest);
            var (r, s) := (Apply(n, TxCodec.ReadTx(tx)), n.applied);
      && (r.ok <==>
            && AccountMark(u) in s && k > Num(s + n.pending, AccountNonce(u))
            && TokenMark(t) in s && Num(s, TokenBalance(t, u)) >= v
            && (dest == u || Num(s, TokenBalance(t, dest)) + v < LIMIT_256))
      && (r.ok ==>
            && r.node.pending == map[] && r.node.checked == r.node.applied
            && Num(r.node.applied, AccountNonce(u)) == k
            && forall f: Field :: !f.AccountNonce? ==>
                 Num(r.node.applied, f) == Num(s, f) - LedgerLaws.On(f, TokenBalance(t, u), v)
                                           + LedgerLaws.On(f, TokenBalance(t, dest), v))
      && (!r.ok ==> r.node.applied == s && r.node.checked == n.checked)
  {
    hide TxCodec.ReadTx, Settled, ValueCodec.WriteIdent, Varint, IsIdent, Handle, Sane;
    TxCodec.ReadsTransfer(u, sig, k, t, dest, v, rest);
    TransferApplied(n, u, k, t, dest, v);
  }

  lemma TransferApplied(n: Node, u: string, k: nat, t: string, dest: string, v: nat)
    requires Settled(n) && k < 0x1_0000_0000_0000_0000
    ensures var (r, s) := (Apply(n, Whole(u, k, TransferToken(t, dest, v))), n.applied);
      && (r.ok <==>
            && AccountMark(u) in s && k > Num(s + n.pending, AccountNonce(u))
            && TokenMark(t) in s && Num(s, TokenBalance(t, u)) >= v
            && (dest == u || Num(s, TokenBalance(t, dest)) + v < LIMIT_256))
      && (r.ok ==>
            && r.node.pending == map[] && r.node.checked == r.node.applied
            && Num(r.node.applied, AccountNonce(u)) == k
            && forall f: Field :: !f.AccountNonce? ==>
                 Num(r.node.applied, f) == Num(s, f) - LedgerLaws.On(f, TokenBalance(t, u), v)
                                           + LedgerLaws.On(f, TokenBalance(t, dest), v))
      && (!r.ok ==> r.node.applied == s && r.node.checked == n.checked)
  {
    hide Handle, Settled, Sane;
    ValidateSettled(n, Applying, u, k);
    var w := Validate(n, Applying, u, k);
    if w.ok {
      ViewIsSane(w.node);
      NumbersAside(w.node);
      TransferMessage(n.applied + w.node.pending, u, t, dest, v);
    }
  }

  /** Pending nonces change no other number, and no mark. */
  lemma NumbersAside(n: Node)
    requires Settled(n)
    ensures forall f: Field :: !f.AccountNonce? ==>
              Num(n.applied + n.pending, f) == Num(n.applied, f) && (f in n.applied + n.pending <==> f in n.applied)
  {
  }
}
