/**
 The contracts on a plain store: what the handlers of src/listener/primary.cc and
 the methods of src/contract/token.cc and src/contract/account.cc do to a map
 from fields to values, with every write going straight to the map.
 */
module Ledger {
  import opened Wrappers
  import opened Buffers
  import opened Curves
  import opened KeySpace

  const KEY_BYTES: nat := 32

  datatype Value =
    | Mark                      // the contract exists
    | Number(n: nat)            // a 256-bit word
    | Name(s: string)
    | Price(curve: Eq)
    | Key(bytes: seq<Byte>)

  type Store = map<Field, Value>

  /** What an identifier type holds after validation: short, printable, lower case. */
  predicate IsIdent(s: string) {
    |s| <= 20 && forall i :: 0 <= i < |s| ==> ' ' <= s[i] <= '~' && !('A' <= s[i] <= 'Z')
  }

  predicate Fitting(f: Field, v: Value) {
    match f
    case AccountMark(_) => v.Mark?
    case AccountKey(_) => v.Key? && |v.bytes| == KEY_BYTES
    case AccountNonce(_) => v.Number? && v.n < LIMIT_256
    case TokenMark(_) => v.Mark?
    case TokenCurve(_) => v.Price? && Wordy(v.curve)
    case TokenBase(_) => v.Name? && IsIdent(v.s)
    case TokenSupply(_) => v.Number? && v.n < LIMIT_256
    case TokenBalance(_, _) => v.Number? && v.n < LIMIT_256
  }

  function Owner(f: Field): Field {
    match f
    case AccountMark(u) => f
    case AccountKey(u) => AccountMark(u)
    case AccountNonce(u) => AccountMark(u)
    case TokenMark(t) => f
    case TokenCurve(t) => TokenMark(t)
    case TokenBase(t) => TokenMark(t)
    case TokenSupply(t) => TokenMark(t)
    case TokenBalance(t, _) => TokenMark(t)
  }

  /** A value in its place, with no '/' in any identifier. */
  predicate Tidy(f: Field, v: Value) {
    Plain(f) && Fitting(f, v) && (v.Name? ==> '/' !in v.s)
  }

  /**
   Values fit their fields, identifiers are free of '/', only contracts that exist have fields, and a
   curve comes with its base.
   */
  ghost predicate Sane(s: Store) {
    && (forall f :: f in s ==> Tidy(f, s[f]) && Owner(f) in s)
    && (forall t :: TokenCurve(t) in s ==> TokenBase(t) in s)
  }

  /** A number that was never written reads as zero. */
  function Num(s: Store, f: Field): (n: nat) {
    if f in s && s[f].Number? then s[f].n else 0
  }

  lemma NumFits(s: Store, f: Field)
    requires Sane(s)
    ensures Num(s, f) < LIMIT_256
  {
    assert f in s ==> Tidy(f, s[f]);
  }

  /** Two stores hold the same at a field. */
  predicate SameAt(s: Store, t: Store, f: Field) {
    (f in s <==> f in t) && (f in s ==> s[f] == t[f])
  }

  function Put(s: Store, f: Field, n: nat): Store {
    s[f := Number(n)]
  }

  // ---------------------------------------------------------------- token.cc

  function Mint(s: Store, t: string, who: string, v: nat): Option<Store> {
    var balance := Fit(Num(s, TokenBalance(t, who)) + v);
    if balance.None? then None
    else
      var s1 := Put(s, TokenBalance(t, who), balance.value);
      var supply := Fit(Num(s1, TokenSupply(t)) + v);
      if supply.None? then None else Some(Put(s1, TokenSupply(t), supply.value))
  }

  function Transfer(s: Store, t: string, src: string, dst: string, v: nat): Option<Store> {
    if Num(s, TokenBalance(t, src)) < v then None
    else
      var s1 := Put(s, TokenBalance(t, src), Num(s, TokenBalance(t, src)) - v);
      var balance := Fit(Num(s1, TokenBalance(t, dst)) + v);
      if balance.None? then None else Some(Put(s1, TokenBalance(t, dst), balance.value))
  }

  /** The curve and the base of a token that can be traded.  Both are set together, after the base was found. */
  function Market(s: Store, t: string): Option<(Eq, string)> {
    if TokenCurve(t) in s && s[TokenCurve(t)].Price?
       && TokenBase(t) in s && s[TokenBase(t)].Name? && TokenMark(s[TokenBase(t)].s) in s
    then Some((s[TokenCurve(t)].curve, s[TokenBase(t)].s))
    else None
  }

  /** The price of moving the supply from `from` up to `to`; `None` when the curve or the subtraction throws. */
  function Gap(e: Eq, from: nat, to: nat): (r: Option<nat>)
    ensures r.Some? ==> r.value < LIMIT_256
    ensures r.Some? ==> Apply(e, to).Some? && Apply(e, from).Some? && Apply(e, to).value == Apply(e, from).value + r.value
  {
    var (hi, lo) := (Apply(e, to), Apply(e, from));
    if hi.None? || lo.None? then None
    else
      Operate(Sub, hi.value, lo.value)
  }

  datatype Trade = Trade(store: Store, paid: nat)

  function Buy(s: Store, t: string, who: string, v: nat): Option<Trade> {
    var market := Market(s, t);
    var supply := Num(s, TokenSupply(t));
    if market.None? || supply + v >= LIMIT_256 then None
    else
      var (curve, base) := market.value;
      var cost := Gap(curve, supply, supply + v);
      if cost.None? || Num(s, TokenBalance(base, who)) < cost.value then None
      else Exchange(s, t, base, who, v, cost.value)
  }

  /** The assignments of a buy: base tokens go, the bought tokens come, the supply grows. */
  function Exchange(s: Store, t: string, base: string, who: string, v: nat, cost: nat): Option<Trade>
    requires cost <= Num(s, TokenBalance(base, who))
  {
    var s1 := Put(s, TokenBalance(base, who), Num(s, TokenBalance(base, who)) - cost);
    var balance := Fit(Num(s1, TokenBalance(t, who)) + v);
    if balance.None? then None
    else
      var s2 := Put(s1, TokenBalance(t, who), balance.value);
      Some(Trade(Put(s2, TokenSupply(t), Num(s2, TokenSupply(t)) + v), cost))
  }

  function Sell(s: Store, t: string, who: string, v: nat): Option<Trade> {
    var market := Market(s, t);
    var supply := Num(s, TokenSupply(t));
    if market.None? || Num(s, TokenBalance(t, who)) < v || supply < v then None
    else
      var (curve, base) := market.value;
      var gain := Gap(curve, supply - v, supply);
      if gain.None? then None else PayOut(s, t, base, who, v, gain.value)
  }

  /** The assignments of a sale. */
  function PayOut(s: Store, t: string, base: string, who: string, v: nat, gain: nat): Option<Trade>
    requires v <= Num(s, TokenBalance(t, who)) && v <= Num(s, TokenSupply(t))
  {
    var s1 := Put(s, TokenBalance(t, who), Num(s, TokenBalance(t, who)) - v);
    var balance := Fit(Num(s1, TokenBalance(base, who)) + gain);
    if balance.None? then None
    else
      var s2 := Put(s1, TokenBalance(base, who), balance.value);
      Some(Trade(Put(s2, TokenSupply(t), Num(s2, TokenSupply(t)) - v), gain))
  }

  // ---------------------------------------------------------------- creation

  /** `create` marks the new contract before its `init` looks at anything. */
  function Marked(s: Store, f: Field): Store {
    s[f := Mark]
  }

  function InitAccount(s: Store, u: string, vk: seq<Byte>): Store {
    s[AccountKey(u) := Key(vk)][AccountNonce(u) := Number(0)]
  }

  /** `Token::init` throws when the base does not exist; a token can be its own base. */
  function InitToken(s: Store, t: string, base: string, curve: Eq): Option<Store> {
    if TokenMark(base) !in s then None
    else Some(s[TokenCurve(t) := Price(curve)][TokenBase(t) := Name(base)][TokenSupply(t) := Number(0)])
  }

  // ---------------------------------------------------------------- the handlers

  /** An edge of the wiki graph: four names. */
  datatype Edge = Edge(subject: string, relation: string, target: string, tag: string)

  predicate IsNodeId(s: string) {
    |s| <= 128 && forall i :: 0 <= i < |s| ==> ' ' <= s[i] <= '~'
  }

  predicate IsEdge(e: Edge) {
    IsNodeId(e.subject) && IsNodeId(e.relation) && IsNodeId(e.target) && IsNodeId(e.tag)
  }

  datatype Msg =
    | CreateAccount(user: string, vk: seq<Byte>)
    | CreateToken(base: string, token: string, curve: Eq)
    | MintToken(token: string, value: nat)
    | TransferToken(token: string, dest: string, value: nat)
    | BuyToken(token: string, value: nat)
    | SellToken(token: string, value: nat)
    | AddWikiEdge(edge: Edge)       // the handlers of the two wiki messages are empty
    | RemoveWikiEdge(edge: Edge)

  /** What parsing a message guarantees. */
  predicate IsMsg(m: Msg) {
    match m
    case CreateAccount(u, vk) => IsIdent(u) && |vk| == KEY_BYTES
    case CreateToken(b, t, c) => IsIdent(b) && IsIdent(t) && Wordy(c)
    case MintToken(t, v) => IsIdent(t) && v < LIMIT_256
    case TransferToken(t, d, v) => IsIdent(t) && IsIdent(d) && v < LIMIT_256
    case BuyToken(t, v) => IsIdent(t) && v < LIMIT_256
    case SellToken(t, v) => IsIdent(t) && v < LIMIT_256
    case AddWikiEdge(e) => IsEdge(e)
    case RemoveWikiEdge(e) => IsEdge(e)
  }

  /** No identifier of the message contains '/'. */
  predicate PlainMsg(m: Msg) {
    match m
    case CreateAccount(u, _) => '/' !in u
    case CreateToken(b, t, _) => '/' !in b && '/' !in t
    case MintToken(t, _) => '/' !in t
    case TransferToken(t, d, _) => '/' !in t && '/' !in d
    case BuyToken(t, _) => '/' !in t
    case SellToken(t, _) => '/' !in t
    case _ => true
  }

  /** What the handlers can be given: parsed, and with identifiers under which no two keys collide. */
  predicate Admissible(user: string, m: Msg) {
    IsMsg(m) && PlainMsg(m) && '/' !in user
  }

  /** The contract a message tries to create. */
  function Created(m: Msg): Option<Field> {
    match m
    case CreateAccount(u, _) => Some(AccountMark(u))
    case CreateToken(_, t, _) => Some(TokenMark(t))
    case _ => None
  }

  /** The store after the handler returns; `None` when it throws. */
  function Handle(s: Store, user: string, m: Msg): Option<Store> {
    match m
    case CreateAccount(u, vk) =>
      if AccountMark(u) in s then None else Some(InitAccount(Marked(s, AccountMark(u)), u, vk))
    case CreateToken(b, t, c) =>
      if TokenMark(t) in s then None else InitToken(Marked(s, TokenMark(t)), t, b, c)
    case MintToken(t, v) =>
      if TokenMark(t) !in s then None else Mint(s, t, user, v)
    case TransferToken(t, d, v) =>
      if TokenMark(t) !in s then None else Transfer(s, t, user, d, v)
    case BuyToken(t, v) =>
      if TokenMark(t) !in s then None
      else
        var r := Buy(s, t, user, v);
        if r.None? then None else Some(r.value.store)
    case SellToken(t, v) =>
      if TokenMark(t) !in s then None
      else
        var r := Sell(s, t, user, v);
        if r.None? then None else Some(r.value.store)
    case AddWikiEdge(_) => Some(s)
    case RemoveWikiEdge(_) => Some(s)
  }

  /** What is left in the store when the handler throws: nothing but the mark of a failed create. */
  function Residue(s: Store, m: Msg): Store {
    match m
    case CreateToken(b, t, c) => if TokenMark(t) in s then s else Marked(s, TokenMark(t))
    case _ => s
  }

  function Outcome(s: Store, user: string, m: Msg): Store {
    var r := Handle(s, user, m);
    if r.None? then Residue(s, m) else r.value
  }

  // ---------------------------------------------------------------- sanity

  lemma PutStaysSane(s: Store, f: Field, n: nat)
    requires Sane(s) && Owner(f) in s && Tidy(f, Number(n))
    ensures Sane(Put(s, f, n))
  {
    hide Plain, IsIdent, Wordy;
  }

  lemma BuyStaysSane(s: Store, t: string, who: string, v: nat)
    requires Sane(s) && TokenMark(t) in s && '/' !in t && '/' !in who && Buy(s, t, who, v).Some?
    ensures Sane(Buy(s, t, who, v).value.store)
  {
    hide Sane, Gap;
    var (e, base) := Market(s, t).value;
    BaseIsPlain(s, t);
    var (f, g) := (TokenBalance(base, who), TokenBalance(t, who));
    NumFits(s, f);
    NumFits(s, TokenSupply(t));
    var paid := Buy(s, t, who, v).value.paid;
    var s1 := Put(s, f, Num(s, f) - paid);
    PutStaysSane(s, f, Num(s, f) - paid);
    PutStaysSane(s1, g, Num(s1, g) + v);
    var s2 := Put(s1, g, Num(s1, g) + v);
    assert Num(s2, TokenSupply(t)) == Num(s, TokenSupply(t));
    PutStaysSane(s2, TokenSupply(t), Num(s2, TokenSupply(t)) + v);
  }

  lemma SellStaysSane(s: Store, t: string, who: string, v: nat)
    requires Sane(s) && TokenMark(t) in s && '/' !in t && '/' !in who && Sell(s, t, who, v).Some?
    ensures Sane(Sell(s, t, who, v).value.store)
  {
    hide Sane, Gap;
    var (e, base) := Market(s, t).value;
    BaseIsPlain(s, t);
    var (f, g) := (TokenBalance(t, who), TokenBalance(base, who));
    NumFits(s, f);
    NumFits(s, TokenSupply(t));
    var paid := Sell(s, t, who, v).value.paid;
    var s1 := Put(s, f, Num(s, f) - v);
    PutStaysSane(s, f, Num(s, f) - v);
    PutStaysSane(s1, g, Num(s1, g) + paid);
    var s2 := Put(s1, g, Num(s1, g) + paid);
    assert Num(s2, TokenSupply(t)) == Num(s, TokenSupply(t));
    PutStaysSane(s2, TokenSupply(t), Num(s2, TokenSupply(t)) - v);
  }

  lemma BaseIsPlain(s: Store, t: string)
    requires Sane(s) && Market(s, t).Some?
    ensures '/' !in Market(s, t).value.1 && TokenMark(Market(s, t).value.1) in s
  {
    assert Tidy(TokenBase(t), s[TokenBase(t)]);
  }

  lemma MintStaysSane(s: Store, t: string, who: string, v: nat)
    requires Sane(s) && TokenMark(t) in s && '/' !in t && '/' !in who && Mint(s, t, who, v).Some?
    ensures Sane(Mint(s, t, who, v).value)
  {
    hide Sane;
    var f := TokenBalance(t, who);
    var s1 := Put(s, f, Num(s, f) + v);
    PutStaysSane(s, f, Num(s, f) + v);
    PutStaysSane(s1, TokenSupply(t), Num(s1, TokenSupply(t)) + v);
  }

  lemma TransferStaysSane(s: Store, t: string, src: string, dst: string, v: nat)
    requires Sane(s) && TokenMark(t) in s && '/' !in t && '/' !in src && '/' !in dst && Transfer(s, t, src, dst, v).Some?
    ensures Sane(Transfer(s, t, src, dst, v).value)
  {
    hide Sane;
    var (f, g) := (TokenBalance(t, src), TokenBalance(t, dst));
    NumFits(s, f);
    var s1 := Put(s, f, Num(s, f) - v);
    PutStaysSane(s, f, Num(s, f) - v);
    PutStaysSane(s1, g, Num(s1, g) + v);
  }

  lemma HandleStaysSane(s: Store, user: string, m: Msg)
    requires Sane(s) && Admissible(user, m) && Handle(s, user, m).Some?
    ensures Sane(Handle(s, user, m).value)
  {
    hide Mint, Transfer, Buy, Sell, Wordy;
    match m
    case BuyToken(t, v) => BuyStaysSane(s, t, user, v);
    case SellToken(t, v) => SellStaysSane(s, t, user, v);
    case MintToken(t, v) => MintStaysSane(s, t, user, v);
    case TransferToken(t, d, v) => TransferStaysSane(s, t, user, d, v);
    case _ =>
  }

  lemma OutcomeStaysSane(s: Store, user: string, m: Msg)
    requires Sane(s) && Admissible(user, m)
    ensures Sane(Outcome(s, user, m))
  {
    if Handle(s, user, m).Some? {
      HandleStaysSane(s, user, m);
    }
  }
}
