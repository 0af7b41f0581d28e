/**
 What holds of the ledger over every run of messages: each token's supply is
 accounted for, and tokens on rising curves can always be sold back.
 */
module LedgerLaws {
  import opened Wrappers
  import opened Buffers
  import opened Curves
  import opened KeySpace
  import opened Ledger

  // ---------------------------------------------------------------- what each call moves

  /** `v` where `f` is the field `g`, and nothing elsewhere. */
  function On(f: Field, g: Field, v: int): int {
    if f == g then v else 0
  }

  /** A mint gives `v` to the receiver and to the supply, and succeeds exactly when both fit. */
  lemma MintMoves(s: Store, t: string, who: string, v: nat)
    ensures Mint(s, t, who, v).Some? <==>
            Num(s, TokenBalance(t, who)) + v < LIMIT_256 && Num(s, TokenSupply(t)) + v < LIMIT_256
    ensures Mint(s, t, who, v).Some? ==>
              forall f :: Num(Mint(s, t, who, v).value, f)
                          == Num(s, f) + On(f, TokenBalance(t, who), v) + On(f, TokenSupply(t), v)
  {
  }

  /** A transfer takes `v` from one and gives it to the other, also when they are the same. */
  lemma TransferMoves(s: Store, t: string, src: string, dst: string, v: nat)
    requires Sane(s)
    ensures Transfer(s, t, src, dst, v).Some? <==>
            Num(s, TokenBalance(t, src)) >= v && (src == dst || Num(s, TokenBalance(t, dst)) + v < LIMIT_256)
    ensures Transfer(s, t, src, dst, v).Some? ==>
              forall f :: Num(Transfer(s, t, src, dst, v).value, f)
                          == Num(s, f) - On(f, TokenBalance(t, src), v) + On(f, TokenBalance(t, dst), v)
  {
    NumFits(s, TokenBalance(t, src));
  }

  /** A buy pays the rise of the curve in base tokens and gives `v` to the buyer and to the supply. */
  lemma BuyMoves(s: Store, t: string, who: string, v: nat)
    requires Buy(s, t, who, v).Some?
    ensures Market(s, t).Some?
    ensures var ((e, base), supply, r) := (Market(s, t).value, Num(s, TokenSupply(t)), Buy(s, t, who, v).value);
            && Apply(e, supply).Some? && Apply(e, supply + v).Some?
            && Apply(e, supply + v).value == Apply(e, supply).value + r.paid
            && r.paid <= Num(s, TokenBalance(base, who))
            && forall f :: Num(r.store, f) == Num(s, f) - On(f, TokenBalance(base, who), r.paid)
                                              + On(f, TokenBalance(t, who), v) + On(f, TokenSupply(t), v)
  {
    hide Apply;
  }

  /** A sale takes `v` from the seller and from the supply and pays back the fall of the curve in base tokens. */
  lemma SellMoves(s: Store, t: string, who: string, v: nat)
    requires Sell(s, t, who, v).Some?
    ensures Market(s, t).Some? && v <= Num(s, TokenSupply(t)) && v <= Num(s, TokenBalance(t, who))
    ensures var ((e, base), supply, r) := (Market(s, t).value, Num(s, TokenSupply(t)), Sell(s, t, who, v).value);
            && Apply(e, supply).Some? && Apply(e, supply - v).Some?
            && Apply(e, supply).value == Apply(e, supply - v).value + r.paid
            && forall f :: Num(r.store, f) == Num(s, f) + On(f, TokenBalance(base, who), r.paid)
                                              - On(f, TokenBalance(t, who), v) - On(f, TokenSupply(t), v)
  {
    hide Apply;
  }

  // ---------------------------------------------------------------- sums over maps

  ghost function Sum<K(!new)>(m: map<K, int>): int {
    if m == map[] then 0
    else
      var k :| k in m;
      m[k] + Sum(m - {k})
  }

  lemma {:induction false} SumSplit<K(!new)>(m: map<K, int>, k: K)
    requires k in m
    ensures Sum(m) == m[k] + Sum(m - {k})
    decreases |m|
  {
    var j :| j in m && Sum(m) == m[j] + Sum(m - {j});
    if j != k {
      SumSplit(m - {j}, k);
      SumSplit(m - {k}, j);
      assert m - {j} - {k} == m - {k} - {j};
    }
  }

  function At<K>(m: map<K, int>, k: K): int {
    if k in m then m[k] else 0
  }

  lemma SumUpdate<K(!new)>(m: map<K, int>, k: K, v: int)
    ensures Sum(m[k := v]) == Sum(m) - At(m, k) + v
  {
    SumSplit(m[k := v], k);
    if k in m {
      SumSplit(m, k);
      assert m[k := v] - {k} == m - {k};
    } else {
      assert m[k := v] - {k} == m;
    }
  }

  lemma {:induction false} SumAtLeast<K(!new)>(m: map<K, int>, k: K)
    requires forall j :: j in m ==> m[j] >= 0
    ensures 0 <= At(m, k) <= Sum(m)
    decreases |m|
  {
    if m != map[] {
      var j :| j in m && Sum(m) == m[j] + Sum(m - {j});
      SumAtLeast(m - {j}, k);
    }
  }

  // ---------------------------------------------------------------- what a token's supply is made of

  /** The balances of a token. */
  ghost function Balances(s: Store, t: string): map<Field, int> {
    map f | f in s && f.TokenBalance? && f.token == t :: Num(s, f)
  }

  /** Base spent in buys less base received from sells, for each token. */
  type Locked = map<string, int>

  /** Of the locked amounts, those that were paid in token `t`. */
  ghost function Backed(s: Store, locked: Locked, t: string): map<string, int> {
    map c | c in locked && TokenBase(c) in s && s[TokenBase(c)] == Name(t) :: locked[c]
  }

  ghost function Accounted(s: Store, locked: Locked, t: string): int {
    Sum(Balances(s, t)) + Sum(Backed(s, locked, t))
  }

  /** Every token's supply is its balances plus what is locked in the tokens it is the base of. */
  ghost predicate Conserved(s: Store, locked: Locked) {
    && (forall t :: Num(s, TokenSupply(t)) == Accounted(s, locked, t))
    && (forall c :: c in locked ==> TokenBase(c) in s)
  }

  /** How a message moves the locked amounts. */
  function Relock(s: Store, locked: Locked, user: string, m: Msg): Locked {
    match m
    case BuyToken(t, v) =>
      if Handle(s, user, m).Some? then locked[t := At(locked, t) + Buy(s, t, user, v).value.paid] else locked
    case SellToken(t, v) =>
      if Handle(s, user, m).Some? then locked[t := At(locked, t) - Sell(s, t, user, v).value.paid] else locked
    case _ => locked
  }

  /** A changed balance changes the total of its own token by as much, and no other total. */
  lemma PutBalance(s: Store, f: Field, n: nat, locked: Locked, t: string)
    requires f.TokenBalance?
    ensures Accounted(Put(s, f, n), locked, t)
            == Accounted(s, locked, t) + if f.token == t then n - Num(s, f) else 0
  {
    assert Backed(Put(s, f, n), locked, t) == Backed(s, locked, t);
    if f.token == t {
      assert Balances(Put(s, f, n), t) == Balances(s, t)[f := n];
      SumUpdate(Balances(s, t), f, n);
    } else {
      assert Balances(Put(s, f, n), t) == Balances(s, t);
    }
  }

  lemma PutSupply(s: Store, c: string, n: nat, locked: Locked, t: string)
    ensures Accounted(Put(s, TokenSupply(c), n), locked, t) == Accounted(s, locked, t)
  {
    assert Balances(Put(s, TokenSupply(c), n), t) == Balances(s, t);
    assert Backed(Put(s, TokenSupply(c), n), locked, t) == Backed(s, locked, t);
  }

  lemma Lock(s: Store, locked: Locked, c: string, n: int, t: string)
    requires TokenBase(c) in s
    ensures Accounted(s, locked[c := n], t)
            == Accounted(s, locked, t) + if s[TokenBase(c)] == Name(t) then n - At(locked, c) else 0
  {
    if s[TokenBase(c)] == Name(t) {
      assert Backed(s, locked[c := n], t) == Backed(s, locked, t)[c := n];
      SumUpdate(Backed(s, locked, t), c, n);
    } else {
      assert Backed(s, locked[c := n], t) == Backed(s, locked, t);
    }
  }

  // ---------------------------------------------------------------- conservation

  lemma MintConserves(s: Store, locked: Locked, c: string, who: string, v: nat)
    requires Conserved(s, locked) && Mint(s, c, who, v).Some?
    ensures Conserved(Mint(s, c, who, v).value, locked)
  {
    hide Accounted;
    var f := TokenBalance(c, who);
    var n := Num(s, f) + v;
    var s1 := Put(s, f, n);
    forall t
      ensures Accounted(Mint(s, c, who, v).value, locked, t) == Accounted(s, locked, t) + if c == t then v else 0
    {
      PutBalance(s, f, n, locked, t);
      PutSupply(s1, c, Num(s1, TokenSupply(c)) + v, locked, t);
    }
    Settled(s, Mint(s, c, who, v).value, locked, locked, c, v);
  }

  /** The shape of every conservation argument: both sides move by `d` for token `c` and stay for the others. */
  lemma Settled(s: Store, s': Store, locked: Locked, locked': Locked, c: string, d: int)
    requires Conserved(s, locked)
    requires forall t :: Num(s', TokenSupply(t)) == Num(s, TokenSupply(t)) + if c == t then d else 0
    requires forall t :: Accounted(s', locked', t) == Accounted(s, locked, t) + if c == t then d else 0
    requires forall b :: b in locked' ==> TokenBase(b) in s'
    ensures Conserved(s', locked')
  {
    forall t
      ensures Num(s', TokenSupply(t)) == Accounted(s', locked', t)
    {
      assert Num(s', TokenSupply(t)) == Num(s, TokenSupply(t)) + if c == t then d else 0;
    }
  }

  lemma TransferConserves(s: Store, locked: Locked, c: string, src: string, dst: string, v: nat)
    requires Conserved(s, locked) && Transfer(s, c, src, dst, v).Some?
    ensures Conserved(Transfer(s, c, src, dst, v).value, locked)
  {
    hide Accounted;
    var (f, g) := (TokenBalance(c, src), TokenBalance(c, dst));
    var s1 := Put(s, f, Num(s, f) - v);
    forall t
      ensures Accounted(Transfer(s, c, src, dst, v).value, locked, t) == Accounted(s, locked, t)
    {
      PutBalance(s, f, Num(s, f) - v, locked, t);
      PutBalance(s1, g, Num(s1, g) + v, locked, t);
    }
    Settled(s, Transfer(s, c, src, dst, v).value, locked, locked, c, 0);
  }

  /** Base leaves the buyer's balance and is locked; what is bought joins the supply. */
  lemma BuyConserves(s: Store, locked: Locked, c: string, who: string, v: nat)
    requires Conserved(s, locked) && Buy(s, c, who, v).Some?
    ensures Conserved(Buy(s, c, who, v).value.store, locked[c := At(locked, c) + Buy(s, c, who, v).value.paid])
  {
    hide Accounted;
    var (r, base) := (Buy(s, c, who, v).value, Market(s, c).value.1);
    var (f, g) := (TokenBalance(base, who), TokenBalance(c, who));
    var s1 := Put(s, f, Num(s, f) - r.paid);
    var s2 := Put(s1, g, Num(s1, g) + v);
    var locked' := locked[c := At(locked, c) + r.paid];
    forall t
      ensures Accounted(r.store, locked', t) == Accounted(s, locked, t) + if c == t then v else 0
    {
      PutBalance(s, f, Num(s, f) - r.paid, locked, t);
      PutBalance(s1, g, Num(s1, g) + v, locked, t);
      PutSupply(s2, c, Num(s2, TokenSupply(c)) + v, locked, t);
      Lock(r.store, locked, c, At(locked, c) + r.paid, t);
    }
    Settled(s, r.store, locked, locked', c, v);
  }

  lemma SellConserves(s: Store, locked: Locked, c: string, who: string, v: nat)
    requires Conserved(s, locked) && Sell(s, c, who, v).Some?
    ensures Conserved(Sell(s, c, who, v).value.store, locked[c := At(locked, c) - Sell(s, c, who, v).value.paid])
  {
    hide Accounted;
    var (r, base) := (Sell(s, c, who, v).value, Market(s, c).value.1);
    var (f, g) := (TokenBalance(c, who), TokenBalance(base, who));
    var s1 := Put(s, f, Num(s, f) - v);
    var s2 := Put(s1, g, Num(s1, g) + r.paid);
    var locked' := locked[c := At(locked, c) - r.paid];
    assert Num(s2, TokenSupply(c)) == Num(s, TokenSupply(c)) >= v;
    forall t
      ensures Accounted(r.store, locked', t) == Accounted(s, locked, t) - if c == t then v else 0
    {
      PutBalance(s, f, Num(s, f) - v, locked, t);
      PutBalance(s1, g, Num(s1, g) + r.paid, locked, t);
      PutSupply(s2, c, Num(s2, TokenSupply(c)) - v, locked, t);
      Lock(r.store, locked, c, At(locked, c) - r.paid, t);
    }
    Settled(s, r.store, locked, locked', c, 0 - v);
  }

  /** Writing a field that is no balance, no supply in use and no base of a locked token changes no total. */
  lemma FieldConserves(s: Store, locked: Locked, f: Field, v: Value)
    requires Conserved(s, locked) && !f.TokenBalance?
    requires f.TokenSupply? ==> Num(s, f) == 0 && v == Number(0)
    requires f.TokenBase? ==> f.token !in locked
    ensures Conserved(s[f := v], locked)
  {
    hide Accounted;
    forall t
      ensures Accounted(s[f := v], locked, t) == Accounted(s, locked, t)
    {
      FieldKeepsTotals(s, locked, f, v, t);
    }
    Settled(s, s[f := v], locked, locked, "", 0);
  }

  lemma FieldKeepsTotals(s: Store, locked: Locked, f: Field, v: Value, t: string)
    requires !f.TokenBalance? && (f.TokenBase? ==> f.token !in locked)
    ensures Accounted(s[f := v], locked, t) == Accounted(s, locked, t)
  {
    hide Sum;
    assert Balances(s[f := v], t) == Balances(s, t);
    assert Backed(s[f := v], locked, t) == Backed(s, locked, t);
  }

  /** A token that does not exist has no fields and nothing locked. */
  lemma Unborn(s: Store, locked: Locked, c: string)
    requires Sane(s) && Conserved(s, locked) && TokenMark(c) !in s
    ensures TokenBase(c) !in s && TokenCurve(c) !in s && TokenSupply(c) !in s && c !in locked
  {
    hide Accounted;
    assert TokenBase(c) in s ==> Owner(TokenBase(c)) in s;
    assert TokenCurve(c) in s ==> Owner(TokenCurve(c)) in s;
    assert TokenSupply(c) in s ==> Owner(TokenSupply(c)) in s;
  }

  lemma AccountConserves(s: Store, locked: Locked, user: string, m: Msg)
    requires Conserved(s, locked) && m.CreateAccount?
    ensures Conserved(Outcome(s, user, m), locked)
  {
    hide Conserved;
    if AccountMark(m.user) !in s {
      var s1 := Marked(s, AccountMark(m.user));
      FieldConserves(s, locked, AccountMark(m.user), Mark);
      FieldConserves(s1, locked, AccountKey(m.user), Key(m.vk));
      FieldConserves(s1[AccountKey(m.user) := Key(m.vk)], locked, AccountNonce(m.user), Number(0));
    }
  }

  /** A created token starts with no supply and no balances, whether or not its base existed. */
  lemma TokenConserves(s: Store, locked: Locked, user: string, m: Msg)
    requires Sane(s) && Conserved(s, locked) && m.CreateToken?
    ensures Conserved(Outcome(s, user, m), locked)
  {
    hide Conserved, Sane;
    var c := m.token;
    if TokenMark(c) !in s {
      Unborn(s, locked, c);
      var s1 := Marked(s, TokenMark(c));
      var s2 := s1[TokenCurve(c) := Price(m.curve)];
      FieldConserves(s, locked, TokenMark(c), Mark);
      FieldConserves(s1, locked, TokenCurve(c), Price(m.curve));
      FieldConserves(s2, locked, TokenBase(c), Name(m.base));
      FieldConserves(s2[TokenBase(c) := Name(m.base)], locked, TokenSupply(c), Number(0));
    }
  }

  lemma OutcomeConserves(s: Store, locked: Locked, user: string, m: Msg)
    requires Sane(s) && Conserved(s, locked) && Admissible(user, m)
    ensures Conserved(Outcome(s, user, m), Relock(s, locked, user, m))
  {
    hide Conserved, Mint, Transfer, Buy, Sell;
    if Handle(s, user, m).Some? || Created(m).Some? {
      match m
      case CreateAccount(_, _) => AccountConserves(s, locked, user, m);
      case CreateToken(_, _, _) => TokenConserves(s, locked, user, m);
      case MintToken(t, v) => MintConserves(s, locked, t, user, v);
      case TransferToken(t, d, v) => TransferConserves(s, locked, t, user, d, v);
      case BuyToken(t, v) => BuyConserves(s, locked, t, user, v);
      case SellToken(t, v) => SellConserves(s, locked, t, user, v);
      case AddWikiEdge(_) =>
      case RemoveWikiEdge(_) =>
    }
  }

  // ---------------------------------------------------------------- runs

  datatype Sent = Sent(user: string, msg: Msg)

  /** The store after a run of messages, the last one last. */
  function Run(run: seq<Sent>): Store {
    if run == [] then map[]
    else
      var last := run[|run| - 1];
      Outcome(Run(run[..|run| - 1]), last.user, last.msg)
  }

  function LockedIn(run: seq<Sent>): Locked {
    if run == [] then map[]
    else
      var last := run[|run| - 1];
      Relock(Run(run[..|run| - 1]), LockedIn(run[..|run| - 1]), last.user, last.msg)
  }

  ghost predicate AllAdmissible(run: seq<Sent>) {
    forall i :: 0 <= i < |run| ==> Admissible(run[i].user, run[i].msg)
  }

  lemma NothingConserved()
    ensures Conserved(map[], map[])
  {
    forall t
      ensures Accounted(map[], map[], t) == 0
    {
      assert Balances(map[], t) == map[] && Backed(map[], map[], t) == map[];
    }
  }

  lemma {:induction false} RunStaysSane(run: seq<Sent>)
    requires AllAdmissible(run)
    ensures Sane(Run(run))
  {
    if run != [] {
      var (before, last) := (run[..|run| - 1], run[|run| - 1]);
      RunStaysSane(before);
      OutcomeStaysSane(Run(before), last.user, last.msg);
    }
  }

  /** In every run, every token's supply is its balances plus the base locked in the tokens built on it. */
  lemma {:induction false} RunConserves(run: seq<Sent>)
    requires AllAdmissible(run)
    ensures Conserved(Run(run), LockedIn(run))
  {
    hide Conserved, Outcome, Relock;
    if run == [] {
      NothingConserved();
    } else {
      var (before, last) := (run[..|run| - 1], run[|run| - 1]);
      RunStaysSane(before);
      RunConserves(before);
      OutcomeConserves(Run(before), LockedIn(before), last.user, last.msg);
    }
  }
}
