/** Whole runs of a node: what checks cannot change, and the ledger that a run of blocks amounts to. */
module ChainRuns {
  import opened Wrappers
  import opened Buffers
  import opened KeySpace
  import opened Ledger
  import opened Chain
  import opened ChainLaws
  import LedgerLaws
  import Solvency

  // ---------------------------------------------------------------- isolation of checks

  /** Between `beginBlock` and the next `commitBlock`. */
  predicate InBlock(events: seq<Event>) {
    if events == [] then false
    else
      var last := events[|events| - 1];
      last.BeginBlock? || (!last.CommitBlock? && InBlock(events[..|events| - 1]))
  }

  /** Transactions are applied inside blocks and checked outside them. */
  ghost predicate Separated(events: seq<Event>) {
    forall i :: 0 <= i < |events| ==>
      && (events[i].CheckTx? ==> !InBlock(events[..i]))
      && (events[i].ApplyTx? ==> InBlock(events[..i]))
  }

  function WithoutChecks(events: seq<Event>): seq<Event> {
    if events == [] then []
    else
      var (before, last) := (events[..|events| - 1], events[|events| - 1]);
      WithoutChecks(before) + if last.CheckTx? then [] else [last]
  }

  /** Inside a block the two runs see the same; outside, checks may leave nonces for the check store. */
  ghost predicate Alike(n: Node, m: Node, inBlock: bool) {
    && n.applied == m.applied && n.checked == m.checked
    && (if inBlock
        then n.pending == m.pending && (n.pending != map[] ==> n.mode == m.mode == Some(Applying))
        else m.pending == map[] && (n.pending != map[] ==> n.mode == Some(Checking)))
  }

  lemma ValidateAlike(n: Node, m: Node, user: string, nonce: nat)
    requires Alike(n, m, true)
    ensures Validate(n, Applying, user, nonce) == Validate(m, Applying, user, nonce)
  {
  }

  lemma ApplyAlike(n: Node, m: Node, raw: Raw)
    requires Alike(n, m, true)
    ensures Apply(n, raw).ok == Apply(m, raw).ok
    ensures Alike(Apply(n, raw).node, Apply(m, raw).node, true)
  {
    if !raw.NoHeader? && !raw.NoType? {
      ValidateAlike(n, m, raw.user, raw.nonce);
    }
  }

  predicate BlockAfter(e: Event, inBlock: bool) {
    e.BeginBlock? || (!e.CommitBlock? && inBlock)
  }

  lemma NextAlike(n: Node, m: Node, e: Event, inBlock: bool)
    requires Alike(n, m, inBlock)
    requires (e.CheckTx? ==> !inBlock) && (e.ApplyTx? ==> inBlock)
    ensures Alike(Next(n, e), if e.CheckTx? then m else Next(m, e), BlockAfter(e, inBlock))
  {
    hide Apply;
    match e
    case ApplyTx(raw) => ApplyAlike(n, m, raw);
    case _ =>
  }

  lemma {:induction false} RunAlike(g: Genesis, events: seq<Event>)
    requires Separated(events)
    ensures Alike(Run(g, events), Run(g, WithoutChecks(events)), InBlock(events))
    ensures Effects(g, events) == Effects(g, WithoutChecks(events))
  {
    hide Apply, Separated, Alike, Next;
    if events == [] {
      StartAlike(g);
    } else {
      var (before, last) := (events[..|events| - 1], events[|events| - 1]);
      SeparatedBefore(events);
      RunAlike(g, before);
      var kept := WithoutChecks(before);
      NextAlike(Run(g, before), Run(g, kept), last, InBlock(before));
      if last.CheckTx? {
        assert WithoutChecks(events) == kept;
        assert Effects(g, events) == Effects(g, before);
      } else {
        assert WithoutChecks(events)[..|kept|] == kept;
        if last.ApplyTx? {
          ApplyAlike(Run(g, before), Run(g, kept), last.raw);
        }
      }
    }
  }

  lemma StartAlike(g: Genesis)
    ensures Alike(Start(g), Start(g), false)
  {
  }

  lemma SeparatedBefore(events: seq<Event>)
    requires Separated(events) && events != []
    ensures var (before, last) := (events[..|events| - 1], events[|events| - 1]);
            && Separated(before)
            && (last.CheckTx? ==> !InBlock(before))
            && (last.ApplyTx? ==> InBlock(before))
  {
    var before := events[..|events| - 1];
    forall i | 0 <= i < |before|
      ensures before[..i] == events[..i] && before[i] == events[i]
    {
    }
  }

  /** Checks outside blocks change nothing that is applied: neither the store nor which transactions take effect. */
  lemma ChecksAreIsolated(g: Genesis, events: seq<Event>)
    requires Separated(events)
    ensures Run(g, events).applied == Run(g, WithoutChecks(events)).applied
    ensures Effects(g, events) == Effects(g, WithoutChecks(events))
  {
    RunAlike(g, events);
  }

  /**
   A check inside a block does leak: it makes the node reject the checked user up to the checked nonce, and
   that nonce is stored by the next transaction of another user that takes effect.
   */
  lemma CheckInBlockLeaks(n: Node, u: string, k: nat, raw: Raw)
    requires Settled(n) && k < LIMIT_64 && Check(n, NoType(u, k)).ok && RawOk(ApplyTx(raw)) && raw.Whole?
    ensures raw.user == u && raw.nonce <= k ==> !Apply(Check(n, NoType(u, k)).node, raw).ok
    ensures raw.user != u && Apply(Check(n, NoType(u, k)).node, raw).ok ==>
              StoredNonce(Apply(Check(n, NoType(u, k)).node, raw).node, u) == k
  {
    var checked := Check(n, NoType(u, k)).node;
    ValidateSettled(n, Checking, u, k);
    if raw.user != u && Apply(checked, raw).ok {
      LeaksThroughProcess(n, checked, Validate(checked, Applying, raw.user, raw.nonce).node, u, k, raw);
    }
  }

  lemma LeaksThroughProcess(n: Node, checked: Node, valid: Node, u: string, k: nat, raw: Raw)
    requires raw.Whole? && raw.user != u && Settled(checked)
    requires AccountNonce(u) in checked.pending && checked.pending[AccountNonce(u)] == Number(k)
    requires valid == Validate(checked, Applying, raw.user, raw.nonce).node
    requires Validate(checked, Applying, raw.user, raw.nonce).ok && Process(valid, raw.user, raw.msg).ok
    requires raw.nonce < LIMIT_64
    ensures StoredNonce(Process(valid, raw.user, raw.msg).node, u) == k
  {
    hide Handle, Settled;
    ValidateSettled(checked, Applying, raw.user, raw.nonce);
    ProcessedNonce(valid, raw.user, raw.msg, u);
  }

  // ---------------------------------------------------------------- exactly what a check inside a block changes

  /** The transaction takes effect when it is the next event. */
  predicate TakesEffect(n: Node, e: Event) {
    e.ApplyTx? && e.raw.Whole? && Apply(n, e.raw).ok
  }

  /** The transaction passes validation in a block. */
  predicate Accepts(n: Node, raw: Raw)
    requires raw.Whole?
  {
    AccountMark(raw.user) in n.applied && raw.nonce > Num(n.applied + n.pending, AccountNonce(raw.user))
  }

  /** What the next commit would store. */
  function ToStore(n: Node): Store {
    if n.mode == Some(Applying) then n.pending else map[]
  }

  /**
   Two nodes with the same stores that are about to part: a commit would store different nonces; or a
   transaction that both accept takes effect and brings different nonces of others with it; or only one
   accepts it, and there it takes effect or leaves a mark.
   */
  predicate Parts(n: Node, m: Node, e: Event) {
    match e
    case CommitBlock => ToStore(n) != ToStore(m)
    case ApplyTx(raw) =>
      && raw.Whole?
      && (if Accepts(n, raw) == Accepts(m, raw)
          then
            && Accepts(n, raw) && Handle(n.applied, raw.user, raw.msg).Some?
            && n.pending - {AccountNonce(raw.user)} != m.pending - {AccountNonce(raw.user)}
          else Handle(n.applied, raw.user, raw.msg).Some? || Residue(n.applied, raw.msg) != n.applied)
    case _ => false
  }

  ghost predicate SameStores(n: Node, m: Node) {
    n.applied == m.applied && n.checked == m.checked
  }

  /** The pending nonces that are put on top of one store can be read off the result. */
  lemma PendingShows(s: Store, p: Store, q: Store)
    requires OnlyNonces(s, p) && OnlyNonces(s, q) && p != q
    ensures exists f: Field :: f.AccountNonce? && Num(s + p, f) != Num(s + q, f) && (f in p || f in q)
  {
    if forall f :: f in p ==> f in q && p[f] == q[f] {
      var f :| f in q && f !in p;
      assert Num(s + q, f) != Num(s + p, f);
    } else {
      var f :| f in p && !(f in q && p[f] == q[f]);
      assert Num(s + q, f) != Num(s + p, f);
    }
  }

  lemma CommitParts(n: Node, m: Node)
    requires Settled(n) && Settled(m) && SameStores(n, m)
    ensures Commit(n).applied == n.applied + ToStore(n) && Commit(m).applied == m.applied + ToStore(m)
    ensures ToStore(n) != ToStore(m) <==> Commit(n).applied != Commit(m).applied
  {
    assert n.applied + map[] == n.applied;
    if ToStore(n) != ToStore(m) {
      PendingShows(n.applied, ToStore(n), ToStore(m));
    }
  }

  /** Applying by cases of the validation. */
  lemma ApplyCases(n: Node, raw: Raw)
    requires Settled(n) && RawOk(ApplyTx(raw)) && raw.Whole?
    ensures !Accepts(n, raw) ==> !Apply(n, raw).ok && Apply(n, raw).node.applied == n.applied && Apply(n, raw).node.checked == n.checked
    ensures Accepts(n, raw) ==>
              var view := n.applied + n.pending[AccountNonce(raw.user) := Number(raw.nonce)];
              && OnlyNonces(n.applied, n.pending[AccountNonce(raw.user) := Number(raw.nonce)]) && Sane(view)
              && (Handle(view, raw.user, raw.msg).Some? <==> Handle(n.applied, raw.user, raw.msg).Some?)
              && (Apply(n, raw).ok <==> Handle(n.applied, raw.user, raw.msg).Some?)
              && (Apply(n, raw).ok ==>
                    Apply(n, raw).node.applied == Apply(n, raw).node.checked == Handle(view, raw.user, raw.msg).value)
              && (!Apply(n, raw).ok ==>
                    Apply(n, raw).node.applied == Residue(n.applied, raw.msg) && Apply(n, raw).node.checked == n.checked)
  {
    hide Handle, Residue, Sane;
    ValidateSettled(n, Applying, raw.user, raw.nonce);
    if Accepts(n, raw) {
      var v := Validate(n, Applying, raw.user, raw.nonce).node;
      assert v.pending == n.pending[AccountNonce(raw.user) := Number(raw.nonce)];
      ViewIsSane(v);
      NoncesAside(v);
      SameOutcome(v.applied + v.pending, v.applied, raw.user, raw.msg);
    }
  }

  /** Both accept and the handler returns: the stores differ exactly when other nonces were pending. */
  lemma HandledParts(s: Store, p: Store, q: Store, user: string, nonce: nat, m: Msg)
    requires Sane(s + p) && Sane(s + q) && OnlyNonces(s, p) && OnlyNonces(s, q)
    requires AccountNonce(user) in p && AccountNonce(user) in q && p[AccountNonce(user)] == q[AccountNonce(user)]
    requires Handle(s + p, user, m).Some? && Handle(s + q, user, m).Some?
    ensures Handle(s + p, user, m).value != Handle(s + q, user, m).value <==> p != q
  {
    hide Handle, Sane;
    if p != q {
      PendingShows(s, p, q);
      var f: Field :| f.AccountNonce? && Num(s + p, f) != Num(s + q, f) && (f in p || f in q);
      HandleKeepsNonces(s + p, user, m, f.user);
      HandleKeepsNonces(s + q, user, m, f.user);
    }
  }

  lemma ApplyParts(n: Node, m: Node, raw: Raw)
    requires Settled(n) && Settled(m) && SameStores(n, m) && RawOk(ApplyTx(raw)) && raw.Whole?
    ensures Parts(n, m, ApplyTx(raw)) <==>
            Apply(n, raw).ok != Apply(m, raw).ok || Apply(n, raw).node.applied != Apply(m, raw).node.applied
    ensures !Parts(n, m, ApplyTx(raw)) ==> SameStores(Apply(n, raw).node, Apply(m, raw).node)
  {
    hide Handle, Residue, Apply, Accepts, Settled;
    ApplyCases(n, raw);
    ApplyCases(m, raw);
    if Accepts(n, raw) && Accepts(m, raw) && Handle(n.applied, raw.user, raw.msg).Some? {
      var (f, v) := (AccountNonce(raw.user), Number(raw.nonce));
      HandledParts(n.applied, n.pending[f := v], m.pending[f := v], raw.user, raw.nonce, raw.msg);
      SameBut(n.pending, m.pending, f, v);
    }
  }

  lemma SameBut(p: Store, q: Store, f: Field, v: Value)
    ensures p[f := v] == q[f := v] <==> p - {f} == q - {f}
  {
    assert p[f := v] - {f} == p - {f} && q[f := v] - {f} == q - {f};
    assert (p - {f})[f := v] == p[f := v] && (q - {f})[f := v] == q[f := v];
  }

  /** Two nodes with the same stores get different apply stores, or disagree on what takes effect, exactly when they part. */
  lemma PartsIff(n: Node, m: Node, e: Event)
    requires Settled(n) && Settled(m) && SameStores(n, m) && RawOk(e)
    ensures Parts(n, m, e) <==>
            Next(n, e).applied != Next(m, e).applied || TakesEffect(n, e) != TakesEffect(m, e)
    ensures !Parts(n, m, e) ==> SameStores(Next(n, e), Next(m, e))
  {
    hide Handle, Residue, Settled, Process;
    match e
    case CommitBlock => CommitParts(n, m);
    case ApplyTx(raw) =>
      if raw.Whole? {
        ApplyParts(n, m, raw);
      }
    case _ =>
  }

  /** Some event of `events` makes the nodes part. */
  predicate EverParts(n: Node, m: Node, events: seq<Event>)
    decreases |events|
  {
    events != [] && (Parts(n, m, events[0]) || EverParts(Next(n, events[0]), Next(m, events[0]), events[1..]))
  }

  /** Some event of `events` gives different apply stores, or takes effect on one side only. */
  predicate EverDiffers(n: Node, m: Node, events: seq<Event>)
    decreases |events|
  {
    && events != []
    && (|| Next(n, events[0]).applied != Next(m, events[0]).applied
        || TakesEffect(n, events[0]) != TakesEffect(m, events[0])
        || EverDiffers(Next(n, events[0]), Next(m, events[0]), events[1..]))
  }

  lemma {:induction false} EverPartsIff(n: Node, m: Node, events: seq<Event>)
    requires Settled(n) && Settled(m) && SameStores(n, m) && Readable(events)
    ensures EverDiffers(n, m, events) <==> EverParts(n, m, events)
    decreases |events|
  {
    hide Settled, Next, TakesEffect, Parts;
    if events != [] {
      PartsIff(n, m, events[0]);
      NextSettled(n, events[0]);
      NextSettled(m, events[0]);
      if !Parts(n, m, events[0]) {
        EverPartsIff(Next(n, events[0]), Next(m, events[0]), events[1..]);
      }
    }
  }

  /** When a check anywhere in a run changes what is applied after it. */
  lemma CheckChangesIff(g: Genesis, before: seq<Event>, raw: Raw, after: seq<Event>)
    requires IsGenesis(g) && Readable(before) && RawOk(CheckTx(raw)) && Readable(after)
    ensures var n := Run(g, before);
            EverDiffers(Check(n, raw).node, n, after) <==> EverParts(Check(n, raw).node, n, after)
  {
    var n := Run(g, before);
    RunSettled(g, before);
    NextSettled(n, CheckTx(raw));
    EverPartsIff(Check(n, raw).node, n, after);
  }

  /** In particular a check that is accepted makes the node reject the very transaction it checked. */
  lemma CheckedIsRejected(n: Node, raw: Raw)
    requires Settled(n) && RawOk(CheckTx(raw)) && Check(n, raw).ok
    ensures !Apply(Check(n, raw).node, raw).ok && Apply(Check(n, raw).node, raw).node.applied == n.applied
  {
    hide Settled;
    ValidateSettled(n, Checking, raw.user, raw.nonce);
    ValidateSettled(Check(n, raw).node, Applying, raw.user, raw.nonce);
  }

  lemma FirstTransaction(g: Genesis, raw: Raw)
    requires IsGenesis(g) && raw == Whole(g.account, 1, AddWikiEdge(Edge("", "", "", "")))
    ensures RawOk(CheckTx(raw)) && Check(Start(g), raw).ok && Apply(Start(g), raw).ok
  {
  }

  /** One event more. */
  lemma EffectsOfLast(g: Genesis, before: seq<Event>, e: Event)
    ensures Run(g, before + [e]) == Next(Run(g, before), e)
    ensures Effects(g, before + [e])
            == Effects(g, before) + if TakesEffect(Run(g, before), e) then [Stamp(e.raw.user, e.raw.nonce)] else []
  {
    hide Next, Apply;
    assert (before + [e])[..|before + [e]| - 1] == before;
  }

  /** A run in which it does: without the check the transaction takes effect, with it nothing does. */
  lemma OwnCheckRejects(g: Genesis)
    requires IsGenesis(g)
    ensures var raw := Whole(g.account, 1, AddWikiEdge(Edge("", "", "", "")));
            && Effects(g, [BeginBlock] + [ApplyTx(raw)]) == [Stamp(g.account, 1)]
            && Effects(g, [BeginBlock] + [CheckTx(raw)] + [ApplyTx(raw)]) == []
  {
    hide Check, Apply, Settled, Start;
    hide Run, Effects;
    var raw := Whole(g.account, 1, AddWikiEdge(Edge("", "", "", "")));
    var (begun, checked) := ([BeginBlock], [BeginBlock] + [CheckTx(raw)]);
    NothingPendingAtStart(g);
    EffectsOfLast(g, begun, ApplyTx(raw));
    EffectsOfLast(g, begun, CheckTx(raw));
    EffectsOfLast(g, checked, ApplyTx(raw));
    FirstTransaction(g, raw);
    StartSettled(g);
    CheckedIsRejected(Start(g), raw);
  }

  lemma NothingPendingAtStart(g: Genesis)
    ensures Run(g, [BeginBlock]) == Begin(Start(g)) == Start(g) && Effects(g, [BeginBlock]) == []
  {
    assert [BeginBlock][..0] == [];
  }

  // ---------------------------------------------------------------- the ledger of a run

  /** The messages that reached their handlers, the two of the genesis first. */
  function LedgerOf(g: Genesis, events: seq<Event>): seq<LedgerLaws.Sent> {
    if events == [] then
      [LedgerLaws.Sent("", GenesisMsgs(g)[0]), LedgerLaws.Sent("", GenesisMsgs(g)[1])]
    else
      var (before, last) := (events[..|events| - 1], events[|events| - 1]);
      LedgerOf(g, before)
      + if last.ApplyTx? && last.raw.Whole? && Validate(Run(g, before), Applying, last.raw.user, last.raw.nonce).ok
        then [LedgerLaws.Sent(last.raw.user, last.raw.msg)] else []
  }

  /** Equal except for nonces, which the ledger does not look at. */
  ghost predicate SameLedger(s: Store, t: Store) {
    forall f: Field :: !f.AccountNonce? ==> SameAt(s, t, f)
  }

  lemma SameNum(s: Store, t: Store, f: Field)
    requires SameLedger(s, t) && !f.AccountNonce?
    ensures Num(s, f) == Num(t, f) && (f in s <==> f in t)
  {
    assert SameAt(s, t, f);
  }

  lemma SamePut(s: Store, t: Store, f: Field, v: Value)
    requires SameLedger(s, t)
    ensures SameLedger(s[f := v], t[f := v])
  {
    forall g: Field | !g.AccountNonce?
      ensures SameAt(s[f := v], t[f := v], g)
    {
      assert SameAt(s, t, g);
    }
  }

  lemma SameMint(s: Store, t: Store, c: string, who: string, v: nat)
    requires SameLedger(s, t)
    ensures Mint(s, c, who, v).Some? <==> Mint(t, c, who, v).Some?
    ensures Mint(s, c, who, v).Some? ==> SameLedger(Mint(s, c, who, v).value, Mint(t, c, who, v).value)
  {
    hide SameLedger;
    var f := TokenBalance(c, who);
    SameNum(s, t, f);
    var n := Num(s, f) + v;
    SamePut(s, t, f, Number(n));
    var (s1, t1) := (Put(s, f, n), Put(t, f, n));
    SameNum(s1, t1, TokenSupply(c));
    SamePut(s1, t1, TokenSupply(c), Number(Num(s1, TokenSupply(c)) + v));
  }

  lemma SameTransfer(s: Store, t: Store, c: string, src: string, dst: string, v: nat)
    requires SameLedger(s, t)
    ensures Transfer(s, c, src, dst, v).Some? <==> Transfer(t, c, src, dst, v).Some?
    ensures Transfer(s, c, src, dst, v).Some? ==>
              SameLedger(Transfer(s, c, src, dst, v).value, Transfer(t, c, src, dst, v).value)
  {
    hide SameLedger;
    var (f, g) := (TokenBalance(c, src), TokenBalance(c, dst));
    SameNum(s, t, f);
    if Num(s, f) >= v {
      var n := Num(s, f) - v;
      SamePut(s, t, f, Number(n));
      var (s1, t1) := (Put(s, f, n), Put(t, f, n));
      SameNum(s1, t1, g);
      SamePut(s1, t1, g, Number(Num(s1, g) + v));
    }
  }

  lemma SameMarket(s: Store, t: Store, c: string)
    requires SameLedger(s, t)
    ensures Market(s, c) == Market(t, c)
  {
    assert SameAt(s, t, TokenCurve(c)) && SameAt(s, t, TokenBase(c));
    if TokenBase(c) in s && s[TokenBase(c)].Name? {
      assert SameAt(s, t, TokenMark(s[TokenBase(c)].s));
    }
  }

  lemma SameExchange(s: Store, t: Store, c: string, base: string, who: string, v: nat, cost: nat)
    requires SameLedger(s, t) && cost <= Num(s, TokenBalance(base, who)) && cost <= Num(t, TokenBalance(base, who))
    ensures var (x, y) := (Exchange(s, c, base, who, v, cost), Exchange(t, c, base, who, v, cost));
            (x.Some? <==> y.Some?) && (x.Some? ==> SameLedger(x.value.store, y.value.store))
  {
    hide SameLedger;
    var (f, g, h) := (TokenBalance(base, who), TokenBalance(c, who), TokenSupply(c));
    SameNum(s, t, f);
    var n := Num(s, f) - cost;
    SamePut(s, t, f, Number(n));
    var (s1, t1) := (Put(s, f, n), Put(t, f, n));
    SameNum(s1, t1, g);
    SamePut(s1, t1, g, Number(Num(s1, g) + v));
    var (s2, t2) := (Put(s1, g, Num(s1, g) + v), Put(t1, g, Num(t1, g) + v));
    SameNum(s2, t2, h);
    SamePut(s2, t2, h, Number(Num(s2, h) + v));
  }

  lemma SamePayOut(s: Store, t: Store, c: string, base: string, who: string, v: nat, gain: nat)
    requires SameLedger(s, t) && v <= Num(s, TokenBalance(c, who)) && v <= Num(s, TokenSupply(c))
    requires v <= Num(t, TokenBalance(c, who)) && v <= Num(t, TokenSupply(c))
    ensures var (x, y) := (PayOut(s, c, base, who, v, gain), PayOut(t, c, base, who, v, gain));
            (x.Some? <==> y.Some?) && (x.Some? ==> SameLedger(x.value.store, y.value.store))
  {
    hide SameLedger;
    var (f, g, h) := (TokenBalance(c, who), TokenBalance(base, who), TokenSupply(c));
    SameNum(s, t, f);
    var n := Num(s, f) - v;
    SamePut(s, t, f, Number(n));
    var (s1, t1) := (Put(s, f, n), Put(t, f, n));
    SameNum(s1, t1, g);
    var k := Num(s1, g) + gain;
    SamePut(s1, t1, g, Number(k));
    var (s2, t2) := (Put(s1, g, k), Put(t1, g, k));
    SameNum(s2, t2, h);
    assert Num(s2, h) == Num(s, h);
    SamePut(s2, t2, h, Number(Num(s2, h) - v));
  }

  lemma SameBuy(s: Store, t: Store, c: string, who: string, v: nat)
    requires SameLedger(s, t)
    ensures Buy(s, c, who, v).Some? <==> Buy(t, c, who, v).Some?
    ensures Buy(s, c, who, v).Some? ==> SameLedger(Buy(s, c, who, v).value.store, Buy(t, c, who, v).value.store)
  {
    hide SameLedger, Market, Gap, Exchange;
    SameMarket(s, t, c);
    SameNum(s, t, TokenSupply(c));
    var supply := Num(s, TokenSupply(c));
    if Market(s, c).Some? {
      var (e, base) := Market(s, c).value;
      var cost := Gap(e, supply, supply + v);
      SameNum(s, t, TokenBalance(base, who));
      if cost.Some? && cost.value <= Num(s, TokenBalance(base, who)) {
        SameExchange(s, t, c, base, who, v, cost.value);
      }
    }
  }

  lemma SameSell(s: Store, t: Store, c: string, who: string, v: nat)
    requires SameLedger(s, t)
    ensures Sell(s, c, who, v).Some? <==> Sell(t, c, who, v).Some?
    ensures Sell(s, c, who, v).Some? ==> SameLedger(Sell(s, c, who, v).value.store, Sell(t, c, who, v).value.store)
  {
    hide SameLedger, Market, Gap, PayOut;
    SameMarket(s, t, c);
    var (balance, supply) := (Num(s, TokenBalance(c, who)), Num(s, TokenSupply(c)));
    SameNum(s, t, TokenSupply(c));
    SameNum(s, t, TokenBalance(c, who));
    if Market(s, c).Some? && balance >= v && supply >= v {
      var (e, base) := Market(s, c).value;
      var gain := Gap(e, supply - v, supply);
      if gain.Some? {
        SamePayOut(s, t, c, base, who, v, gain.value);
      }
    }
  }

  lemma SameCreate(s: Store, t: Store, user: string, m: Msg)
    requires SameLedger(s, t) && Created(m).Some?
    ensures Handle(s, user, m).Some? <==> Handle(t, user, m).Some?
    ensures SameLedger(Outcome(s, user, m), Outcome(t, user, m))
  {
    hide SameLedger;
    var f := Created(m).value;
    SameNum(s, t, f);
    SamePut(s, t, f, Mark);
    var (s1, t1) := (Marked(s, f), Marked(t, f));
    match m
    case CreateAccount(u, vk) =>
      SamePut(s1, t1, AccountKey(u), Key(vk));
      SamePut(s1[AccountKey(u) := Key(vk)], t1[AccountKey(u) := Key(vk)], AccountNonce(u), Number(0));
    case CreateToken(b, c, e) =>
      SameNum(s1, t1, TokenMark(b));
      SamePut(s1, t1, TokenCurve(c), Price(e));
      var (s2, t2) := (s1[TokenCurve(c) := Price(e)], t1[TokenCurve(c) := Price(e)]);
      SamePut(s2, t2, TokenBase(c), Name(b));
      SamePut(s2[TokenBase(c) := Name(b)], t2[TokenBase(c) := Name(b)], TokenSupply(c), Number(0));
  }

  /** Handlers other than the nonce check do not depend on nonces. */
  lemma SameOutcome(s: Store, t: Store, user: string, m: Msg)
    requires SameLedger(s, t)
    ensures Handle(s, user, m).Some? <==> Handle(t, user, m).Some?
    ensures SameLedger(Outcome(s, user, m), Outcome(t, user, m))
  {
    hide SameLedger, Mint, Transfer, Buy, Sell;
    match m
    case CreateAccount(_, _) => SameCreate(s, t, user, m);
    case CreateToken(_, _, _) => SameCreate(s, t, user, m);
    case MintToken(c, v) => SameNum(s, t, TokenMark(c)); SameMint(s, t, c, user, v);
    case TransferToken(c, d, v) => SameNum(s, t, TokenMark(c)); SameTransfer(s, t, c, user, d, v);
    case BuyToken(c, v) => SameNum(s, t, TokenMark(c)); SameBuy(s, t, c, user, v);
    case SellToken(c, v) => SameNum(s, t, TokenMark(c)); SameSell(s, t, c, user, v);
    case AddWikiEdge(_) =>
    case RemoveWikiEdge(_) =>
  }

  /** One step moves the apply store by one outcome, nonces apart. */
  lemma ApplyIsOutcome(n: Node, user: string, nonce: nat, m: Msg)
    requires Settled(n) && nonce < LIMIT_64 && Validate(n, Applying, user, nonce).ok
    ensures SameLedger(Apply(n, Whole(user, nonce, m)).node.applied, Outcome(n.applied, user, m))
  {
    hide Handle, Settled;
    var v := Validate(n, Applying, user, nonce).node;
    ValidateSettled(n, Applying, user, nonce);
    NoncesAside(v);
    SameOutcome(v.applied + v.pending, v.applied, user, m);
  }

  lemma NoncesAside(n: Node)
    requires Settled(n)
    ensures SameLedger(n.applied + n.pending, n.applied)
  {
  }

  lemma StepIsOutcome(n: Node, e: Event)
    requires Settled(n) && RawOk(e)
    ensures e.ApplyTx? && e.raw.Whole? && Validate(n, Applying, e.raw.user, e.raw.nonce).ok ==>
              SameLedger(Next(n, e).applied, Outcome(n.applied, e.raw.user, e.raw.msg))
    ensures !(e.ApplyTx? && e.raw.Whole? && Validate(n, Applying, e.raw.user, e.raw.nonce).ok) ==>
              SameLedger(Next(n, e).applied, n.applied)
  {
    hide Handle, Settled, Outcome, Process;
    if e.ApplyTx? && e.raw.Whole? && Validate(n, Applying, e.raw.user, e.raw.nonce).ok {
      ApplyIsOutcome(n, e.raw.user, e.raw.nonce, e.raw.msg);
    } else if e.CommitBlock? {
      NoncesAside(n);
    }
  }

  lemma SameTrans(s: Store, t: Store, u: Store)
    requires SameLedger(s, t) && SameLedger(t, u)
    ensures SameLedger(s, u)
  {
    forall f: Field | !f.AccountNonce?
      ensures SameAt(s, u, f)
    {
      assert SameAt(s, t, f) && SameAt(t, u, f);
    }
  }

  /** However blocks, checks and failures are interleaved, the apply store is the plain ledger of the handled messages. */
  lemma {:induction false} ChainIsLedger(g: Genesis, events: seq<Event>)
    requires IsGenesis(g) && Readable(events)
    ensures SameLedger(Run(g, events).applied, LedgerLaws.Run(LedgerOf(g, events)))
    ensures LedgerLaws.AllAdmissible(LedgerOf(g, events))
  {
    hide SameLedger, Outcome, Next, Settled, Validate;
    if events == [] {
      GenesisIsLedger(g);
    } else {
      var (before, last) := (events[..|events| - 1], events[|events| - 1]);
      ChainIsLedger(g, before);
      RunSettled(g, before);
      var (n, sent) := (Run(g, before), LedgerOf(g, before));
      StepIsOutcome(n, last);
      if last.ApplyTx? && last.raw.Whole? && Validate(n, Applying, last.raw.user, last.raw.nonce).ok {
        SameOutcome(n.applied, LedgerLaws.Run(sent), last.raw.user, last.raw.msg);
        SameTrans(Run(g, events).applied, Outcome(n.applied, last.raw.user, last.raw.msg),
                  Outcome(LedgerLaws.Run(sent), last.raw.user, last.raw.msg));
        assert LedgerOf(g, events)[..|sent|] == sent;
      } else {
        SameTrans(Run(g, events).applied, n.applied, LedgerLaws.Run(sent));
        assert LedgerOf(g, events) == sent;
      }
    }
  }

  lemma GenesisIsLedger(g: Genesis)
    requires IsGenesis(g)
    ensures SameLedger(Start(g).applied, LedgerLaws.Run(LedgerOf(g, [])))
    ensures LedgerLaws.AllAdmissible(LedgerOf(g, []))
  {
    hide Outcome;
    StartIsHandled(g);
    var sent := LedgerOf(g, []);
    assert sent[..1][..0] == [] && sent[..1] == [sent[0]];
    assert LedgerLaws.Run(sent[..1]) == Outcome(map[], "", GenesisMsgs(g)[0]);
  }

  /** Conservation on a running node, checks, failures and leaks included. */
  lemma ChainConserves(g: Genesis, events: seq<Event>, t: string)
    requires IsGenesis(g) && Readable(events)
    ensures Num(Run(g, events).applied, TokenSupply(t))
            == LedgerLaws.Accounted(Run(g, events).applied, LedgerLaws.LockedIn(LedgerOf(g, events)), t)
  {
    hide LedgerLaws.Sum;
    var (s, sent) := (Run(g, events).applied, LedgerOf(g, events));
    var locked := LedgerLaws.LockedIn(sent);
    ChainIsLedger(g, events);
    LedgerLaws.RunConserves(sent);
    SameAccounts(s, LedgerLaws.Run(sent), locked, t);
  }

  lemma SameAccounts(s: Store, t: Store, locked: LedgerLaws.Locked, c: string)
    requires SameLedger(s, t)
    ensures LedgerLaws.Accounted(s, locked, c) == LedgerLaws.Accounted(t, locked, c)
    ensures Num(s, TokenSupply(c)) == Num(t, TokenSupply(c))
  {
    hide LedgerLaws.Sum;
    SameNum(s, t, TokenSupply(c));
    forall f: Field | f.TokenBalance?
      ensures (f in s <==> f in t) && Num(s, f) == Num(t, f)
    {
      SameNum(s, t, f);
    }
    forall k: string
      ensures (TokenBase(k) in s <==> TokenBase(k) in t) && (TokenBase(k) in s ==> s[TokenBase(k)] == t[TokenBase(k)])
    {
      assert SameAt(s, t, TokenBase(k));
    }
    assert LedgerLaws.Balances(s, c) == LedgerLaws.Balances(t, c);
    assert LedgerLaws.Backed(s, locked, c) == LedgerLaws.Backed(t, locked, c);
  }

  /** Solvency on a running node: the root of the genesis is minted, the other tokens are traded on sound curves. */
  lemma ChainCanAlwaysSell(g: Genesis, events: seq<Event>, user: string, t: string, v: nat)
    requires IsGenesis(g) && Readable(events) && Solvency.Disciplined(g.token, LedgerOf(g, events))
    requires t != g.token && TokenBase(t) in Run(g, events).applied
    requires v <= Num(Run(g, events).applied, TokenBalance(t, user))
    ensures Handle(Run(g, events).applied, user, SellToken(t, v)).Some?
  {
    hide Handle, Solvency.Disciplined;
    var (s, sent) := (Run(g, events).applied, LedgerOf(g, events));
    ChainIsLedger(g, events);
    var plain := LedgerLaws.Run(sent);
    SameNum(s, plain, TokenBalance(t, user));
    SameNum(s, plain, TokenBase(t));
    Solvency.RunCanAlwaysSell(g.token, sent, user, t, v);
    SameOutcome(s, plain, user, SellToken(t, v));
  }
}
