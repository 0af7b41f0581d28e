/**
 The primary listener and its manager (src/listener/primary.h, primary.cc and
 manager.cc) over the transactional store: each call is one step of the node.
 */
module Manager {
  import opened Wrappers
  import opened Buffers
  import opened KeySpace
  import opened Ledger
  import opened Storage
  import opened Contracts
  import opened Chain
  import ChainLaws
  import Curves
  import TxCodec
  import ValueCodec

  /** What the store amounts to as a node. */
  ghost function NodeOf(storage: Storage): Node
    reads storage
  {
    Node(storage.applied, storage.checked, storage.current, Written(storage.cells))
  }

  /** Between steps only accounts are cached, and nothing was erased. */
  ghost predicate AtRest(storage: Storage)
    reads storage
  {
    && storage.Valid() && ChainLaws.Settled(NodeOf(storage)) && Gone(storage.cells) == {}
    && forall m :: m in storage.contracts ==> m.AccountMark?
  }

  lemma ViewAtRest(storage: Storage)
    requires Gone(storage.cells) == {}
    ensures storage.View() == storage.Stored() + Written(storage.cells)
  {
  }

  lemma AccountsInBoth(storage: Storage)
    requires AtRest(storage)
    ensures forall m :: m in storage.contracts ==> m in storage.checked && m in storage.applied
  {
    forall m | m in storage.contracts
      ensures m in storage.checked && m in storage.applied
    {
      ChainLaws.AgreedNum(NodeOf(storage), m);
    }
  }

  class PrimaryListener {
    const storage: Storage

    constructor (storage: Storage)
      ensures this.storage == storage
    {
      this.storage := storage;
    }

    /** `validateTransaction`. */
    method ValidateTransaction(mode: Mode, user: string, nonce: nat) returns (ok: bool)
      requires AtRest(storage) && Slashless(user) && nonce < ChainLaws.LIMIT_64
      modifies storage`current, storage`contracts, storage`cells
      ensures AtRest(storage)
      ensures Step(ok, NodeOf(storage)) == Validate(old(NodeOf(storage)), mode, user, nonce)
    {
      hide ChainLaws.Settled, Overlaid, Holds, CellsOk, SameFields, Written, IsIdent;
      ChainLaws.ValidateSettled(NodeOf(storage), mode, user, nonce);
      AccountsInBoth(storage);
      storage.SwitchTo(mode);
      ViewAtRest(storage);
      ok := storage.GetContract(AccountMark(user));
      if !ok {
        return false;
      }
      var account := new Account(storage, user);
      ok := account.SetNonce(nonce);
    }

    /** The handlers. A failed one may leave writes in the cache, and the mark of a failed create in the store. */
    method Handle(user: string, m: Msg) returns (ok: bool)
      requires storage.Valid() && storage.current == Some(Applying) && Gone(storage.cells) == {}
      requires Sane(storage.View()) && Slashless(user) && IsMsg(m) && PlainMsg(m)
      modifies storage`applyCache, storage`checkCache, storage`applied, storage`contracts, storage`cells
      ensures storage.Valid()
      ensures ok <==> Ledger.Handle(old(storage.View()), user, m).Some?
      ensures ok ==> storage.View() == Ledger.Handle(old(storage.View()), user, m).value && Gone(storage.cells) == {}
      ensures !ok ==> storage.applied == Residue(old(storage.applied), m)
    {
      hide Mint, Transfer, Buy, Sell, InitAccount, Overlaid, Holds, CellsOk, Sane, Curves.Wordy, SameFields;
      hide IsIdent, Gone, Storage.StoresOk, Storage.CacheOk;
      match m
      case CreateAccount(u, vk) =>
        ok := storage.Create(AccountMark(u));
        if ok {
          var account := new Account(storage, u);
          account.Init(vk);
        }
      case CreateToken(b, t, c) =>
        ok := storage.Create(TokenMark(t));
        if ok {
          var token := new Token(storage, t);
          ok := token.Init(b, c);
        }
      case MintToken(t, v) =>
        ok := storage.GetContract(TokenMark(t));
        if ok {
          var token := new Token(storage, t);
          ok := token.Mint(user, v);
        }
      case TransferToken(t, d, v) =>
        ok := storage.GetContract(TokenMark(t));
        if ok {
          var token := new Token(storage, t);
          ok := token.Transfer(user, d, v);
        }
      case BuyToken(t, v) =>
        ok := storage.GetContract(TokenMark(t));
        if ok {
          var token := new Token(storage, t);
          var paid := token.Buy(user, v);
          ok := paid.Some?;
        }
      case SellToken(t, v) =>
        ok := storage.GetContract(TokenMark(t));
        if ok {
          var token := new Token(storage, t);
          var paid := token.Sell(user, v);
          ok := paid.Some?;
        }
      case AddWikiEdge(_) =>
        ok := true;
      case RemoveWikiEdge(_) =>
        ok := true;
    }

    /** `process`: flush on success, reset either way. */
    method Process(user: string, m: Msg) returns (ok: bool)
      requires AtRest(storage) && Slashless(user) && IsMsg(m) && PlainMsg(m)
      modifies storage
      ensures AtRest(storage)
      ensures Step(ok, NodeOf(storage)) == Chain.Process(old(NodeOf(storage)), user, m)
    {
      hide ChainLaws.Settled, Overlaid, Holds, CellsOk, SameFields, Written, IsIdent, Ledger.Handle, Residue;
      ghost var before := NodeOf(storage);
      ChainLaws.ViewIsSane(before);
      ChainLaws.ProcessSettled(before, user, m);
      AccountsInBoth(storage);
      storage.SwitchTo(Applying);
      ViewAtRest(storage);
      ok := Handle(user, m);
      if ok {
        storage.Flush();
      }
      storage.Reset();
      NothingWritten();
    }

    lemma NothingWritten()
      ensures Written(map[]) == map[] && Gone(map[]) == {}
    {
    }

    method Begin()
      requires AtRest(storage)
      modifies storage
      ensures AtRest(storage) && NodeOf(storage) == Chain.Begin(old(NodeOf(storage)))
    {
      hide Overlaid, Holds, CellsOk, SameFields, Written;
      storage.Reset();
      NothingWritten();
      ChainLaws.NextSettled(old(NodeOf(storage)), BeginBlock);
    }

    method Commit()
      requires AtRest(storage)
      modifies storage
      ensures AtRest(storage) && NodeOf(storage) == Chain.Commit(old(NodeOf(storage)))
    {
      hide Overlaid, Holds, CellsOk, SameFields, Written, ChainLaws.Settled;
      ChainLaws.NextSettled(NodeOf(storage), CommitBlock);
      ViewAtRest(storage);
      NothingPending(NodeOf(storage));
      assert storage.current.Some? ==> storage.current.value.Checking? || storage.current.value.Applying?;
      storage.Flush();
      NothingWritten();
    }

    lemma NothingPending(n: Node)
      requires ChainLaws.Settled(n)
      ensures n.mode == None ==> n.applied + n.pending == n.applied
    {
    }

    /** `init`: the genesis account and the root token, on an empty store. */
    method Init(g: Genesis)
      requires AtRest(storage) && NodeOf(storage) == Node(map[], map[], None, map[]) && storage.contracts == {}
      requires IsGenesis(g)
      modifies storage
      ensures AtRest(storage) && NodeOf(storage) == Start(g)
    {
      hide Overlaid, Holds, CellsOk, SameFields, Written, ChainLaws.Settled, IsIdent;
      ChainLaws.StartSettled(g);
      ViewAtRest(storage);
      storage.SwitchTo(Applying);
      var created := storage.Create(AccountMark(g.account));
      var account := new Account(storage, g.account);
      account.Init(g.vk);
      created := storage.Create(TokenMark(g.token));
      var token := new Token(storage, g.token);
      var ok := token.Init(g.token, Curves.Variable);
      storage.Flush();
      NothingWritten();
    }
  }

  class ListenerManager {
    const primary: PrimaryListener

    constructor (primary: PrimaryListener)
      ensures this.primary == primary
    {
      this.primary := primary;
    }

    /** `initChain`: the account "BandGod" and the token "Band", as identifiers. */
    method InitChain(vk: seq<Byte>)
      requires AtRest(primary.storage) && NodeOf(primary.storage) == Node(map[], map[], None, map[])
      requires primary.storage.contracts == {} && |vk| == KEY_BYTES
      modifies primary.storage
      ensures AtRest(primary.storage) && NodeOf(primary.storage) == Start(Genesis("bandgod", vk, "band"))
    {
      hide Overlaid, Holds, CellsOk, SameFields, Written, ChainLaws.Settled, ValueCodec.Validated, IsIdent, Start;
      ValueCodec.GenesisNames();
      var account := ValueCodec.Validated(ValueCodec.BytesOf("BandGod"));
      var token := ValueCodec.Validated(ValueCodec.BytesOf("Band"));
      primary.Init(Genesis(account.value, vk, token.value));
    }

    method BeginBlock()
      requires AtRest(primary.storage)
      modifies primary.storage
      ensures AtRest(primary.storage) && NodeOf(primary.storage) == Next(old(NodeOf(primary.storage)), Event.BeginBlock)
    {
      primary.Begin();
    }

    /** `checkTransaction`: only the header is read. */
    method CheckTransaction(raw: seq<Byte>) returns (ok: bool)
      requires AtRest(primary.storage) && PlainRaw(TxCodec.ReadTx(raw))
      modifies primary.storage
      ensures AtRest(primary.storage)
      ensures Step(ok, NodeOf(primary.storage)) == Check(old(NodeOf(primary.storage)), TxCodec.ReadTx(raw))
    {
      hide Validate, TxCodec.ReadMsg, TxCodec.ReadHeader, TxCodec.ReadVarint, IsIdent, ChainLaws.Settled;
      var hdr := TxCodec.ReadHeader(raw);
      if hdr.None? {
        return false;
      }
      ok := primary.ValidateTransaction(Checking, hdr.value.0.0, hdr.value.0.1);
    }

    /** `applyTransaction`: the message is read only after the nonce is set. */
    method ApplyTransaction(raw: seq<Byte>) returns (ok: bool)
      requires AtRest(primary.storage) && PlainRaw(TxCodec.ReadTx(raw))
      modifies primary.storage
      ensures AtRest(primary.storage)
      ensures Step(ok, NodeOf(primary.storage)) == Apply(old(NodeOf(primary.storage)), TxCodec.ReadTx(raw))
    {
      hide Validate, Chain.Process, TxCodec.ReadMsg, TxCodec.ReadHeader, TxCodec.ReadVarint, IsIdent, ChainLaws.Settled;
      var hdr := TxCodec.ReadHeader(raw);
      if hdr.None? {
        return false;
      }
      var ((user, nonce), rest) := hdr.value;
      var kind := TxCodec.ReadVarint(U16, rest);
      if kind.None? || kind.value.0 >= 8 {
        return false;
      }
      ok := primary.ValidateTransaction(Applying, user, nonce);
      if !ok {
        return false;
      }
      var msg := TxCodec.ReadMsg(kind.value.0, kind.value.1);
      if msg.None? {
        return false;
      }
      ok := primary.Process(user, msg.value);
    }

    method CommitBlock()
      requires AtRest(primary.storage)
      modifies primary.storage
      ensures AtRest(primary.storage) && NodeOf(primary.storage) == Next(old(NodeOf(primary.storage)), Event.CommitBlock)
    {
      primary.Commit();
    }
  }
}
