/**
 A node as a state machine: two stores, the store in use, and what cached contracts
 have written but not yet stored.  The steps are those of src/listener/manager.cc
 and src/listener/primary.cc over src/store/storage.cc and storage_map.cc.
 */
module Chain {
  import opened Wrappers
  import opened Buffers
  import opened KeySpace
  import opened Ledger

  datatype Mode = Checking | Applying

  datatype Node = Node(applied: Store, checked: Store, mode: Option<Mode>, pending: Store)

  /** How far the bytes of a transaction can be read. */
  datatype Raw =
    | NoHeader
    | NoType(user: string, nonce: nat)
    | NoMessage(user: string, nonce: nat)
    | Whole(user: string, nonce: nat, msg: Msg)

  predicate IsRaw(r: Raw) {
    (!r.NoHeader? ==> r.nonce < 0x1_0000_0000_0000_0000 && IsIdent(r.user)) && (r.Whole? ==> IsMsg(r.msg))
  }

  /** No identifier of the transaction contains '/'. */
  predicate PlainRaw(r: Raw) {
    (!r.NoHeader? ==> '/' !in r.user) && (r.Whole? ==> PlainMsg(r.msg))
  }

  datatype Event = BeginBlock | CheckTx(raw: Raw) | ApplyTx(raw: Raw) | CommitBlock

  datatype Step = Step(ok: bool, node: Node)

  // ---------------------------------------------------------------- the steps

  /** `validateTransaction`: the nonce must grow, and is set in the cached account only. */
  function Validate(n: Node, mode: Mode, user: string, nonce: nat): Step {
    var view := (if mode.Checking? then n.checked else n.applied) + n.pending;
    var n1 := n.(mode := Some(mode));
    if AccountMark(user) !in view || nonce <= Num(view, AccountNonce(user)) then Step(false, n1)
    else Step(true, n1.(pending := n.pending[AccountNonce(user) := Number(nonce)]))
  }

  /** `process`: everything is stored and committed, or, on a throw, all that was cached is dropped. */
  function Process(n: Node, user: string, m: Msg): Step {
    var r := Handle(n.applied + n.pending, user, m);
    if r.Some? then Step(true, Node(r.value, r.value, None, map[]))
    else Step(false, Node(Residue(n.applied, m), n.checked, Some(Applying), map[]))
  }

  function Check(n: Node, raw: Raw): Step {
    if raw.NoHeader? then Step(false, n) else Validate(n, Checking, raw.user, raw.nonce)
  }

  /** `applyTransaction`: the header and the type are read before the nonce is set, the message after it. */
  function Apply(n: Node, raw: Raw): Step {
    if raw.NoHeader? || raw.NoType? then Step(false, n)
    else
      var v := Validate(n, Applying, raw.user, raw.nonce);
      if raw.NoMessage? || !v.ok then Step(false, v.node) else Process(v.node, raw.user, raw.msg)
  }

  function Begin(n: Node): Node {
    n.(pending := map[])
  }

  /** `flush` stores what is pending where the mode points, then the apply store replaces the check store. */
  function Commit(n: Node): Node {
    var applied := if n.mode == Some(Applying) then n.applied + n.pending else n.applied;
    Node(applied, applied, None, map[])
  }

  function Next(n: Node, e: Event): Node {
    match e
    case BeginBlock => Begin(n)
    case CheckTx(raw) => Check(n, raw).node
    case ApplyTx(raw) => Apply(n, raw).node
    case CommitBlock => Commit(n)
  }

  datatype Genesis = Genesis(account: string, vk: seq<Byte>, token: string)

  predicate IsGenesis(g: Genesis) {
    IsIdent(g.account) && |g.vk| == KEY_BYTES && IsIdent(g.token) && '/' !in g.account && '/' !in g.token
  }

  /** The root token is its own base, on the linear curve. */
  function GenesisMsgs(g: Genesis): seq<Msg> {
    [CreateAccount(g.account, g.vk), CreateToken(g.token, g.token, Curves.Variable)]
  }

  function GenesisStore(g: Genesis): Store {
    var s := InitAccount(Marked(map[], AccountMark(g.account)), g.account, g.vk);
    var t := Marked(s, TokenMark(g.token));
    t[TokenCurve(g.token) := Price(Curves.Variable)][TokenBase(g.token) := Name(g.token)][TokenSupply(g.token) := Number(0)]
  }

  function Start(g: Genesis): Node {
    Node(GenesisStore(g), GenesisStore(g), None, map[])
  }

  /** The node after a run of events, the last one last. */
  function Run(g: Genesis, events: seq<Event>): Node {
    if events == [] then Start(g)
    else Next(Run(g, events[..|events| - 1]), events[|events| - 1])
  }

  ghost predicate Readable(events: seq<Event>) {
    forall i :: 0 <= i < |events| ==> RawOk(events[i])
  }

  predicate RawOk(e: Event) {
    match e
    case CheckTx(raw) => IsRaw(raw) && PlainRaw(raw)
    case ApplyTx(raw) => IsRaw(raw) && PlainRaw(raw)
    case _ => true
  }
}
