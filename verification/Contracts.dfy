/**
 The contracts over the transactional store: Token (src/contract/token.cc) and
 Account (src/contract/account.cc), whose fields are data wrappers.  Each method
 does to what the transaction sees what the plain ledger says.
 */
module Contracts {
  import opened Wrappers
  import opened Buffers
  import opened Curves
  import opened KeySpace
  import opened Ledger
  import opened Storage
  import Chain

  predicate Slashless(s: string) {
    IsIdent(s) && '/' !in s
  }

  predicate Numeric(f: Field) {
    f.AccountNonce? || f.TokenSupply? || f.TokenBalance?
  }

  /** Reading a number through its wrapper. */
  method ReadNumber(storage: Storage, f: Field) returns (n: nat)
    requires storage.Valid() && Gone(storage.cells) == {}
    requires Plain(f) && Numeric(f) && Owner(f) in storage.contracts
    modifies storage`cells
    ensures storage.Valid() && Gone(storage.cells) == {}
    ensures storage.View() == old(storage.View()) && Written(storage.cells) == old(Written(storage.cells))
    ensures n == Num(storage.View(), f) && n < LIMIT_256
  {
    hide Gone, Written, Overlaid, Holds, CellsOk, Plain;
    var v := storage.ReadCell(f);
    n := v.value.n;
  }

  method WriteNumber(storage: Storage, f: Field, n: nat)
    requires storage.Valid() && Gone(storage.cells) == {}
    requires Plain(f) && Numeric(f) && Owner(f) in storage.contracts && n < LIMIT_256
    modifies storage`cells
    ensures storage.Valid() && Gone(storage.cells) == {}
    ensures storage.View() == Put(old(storage.View()), f, n)
    ensures Written(storage.cells) == old(Written(storage.cells))[f := Number(n)]
  {
    hide Gone, Written, Overlaid, Holds, CellsOk, Plain;
    storage.WriteCell(f, Number(n));
  }

  /** The source's `x = +x + value`: it throws when the sum does not fit. */
  method Credit(storage: Storage, f: Field, value: nat) returns (ok: bool)
    requires storage.Valid() && Gone(storage.cells) == {}
    requires Plain(f) && Numeric(f) && Owner(f) in storage.contracts
    modifies storage`cells
    ensures storage.Valid() && Gone(storage.cells) == {}
    ensures ok <==> Num(old(storage.View()), f) + value < LIMIT_256
    ensures storage.View() ==
            if ok then Put(old(storage.View()), f, Num(old(storage.View()), f) + value) else old(storage.View())
  {
    hide Gone, Written, Overlaid, Holds, CellsOk, Plain, Storage.StoresOk, Storage.CacheOk, Storage.View, Storage.Valid;
    var n := ReadNumber(storage, f);
    if n + value >= LIMIT_256 {
      return false;
    }
    WriteNumber(storage, f, n + value);
    return true;
  }

  /** The source's `x = +x - value`, for a value that is known to be there. */
  method Debit(storage: Storage, f: Field, value: nat)
    requires storage.Valid() && Gone(storage.cells) == {}
    requires Plain(f) && Numeric(f) && Owner(f) in storage.contracts
    requires value <= Num(storage.View(), f)
    modifies storage`cells
    ensures storage.Valid() && Gone(storage.cells) == {}
    ensures storage.View() == Put(old(storage.View()), f, Num(old(storage.View()), f) - value)
  {
    hide Gone, Written, Overlaid, Holds, CellsOk, Plain, Storage.StoresOk, Storage.CacheOk, Storage.View, Storage.Valid;
    var n := ReadNumber(storage, f);
    WriteNumber(storage, f, n - value);
  }

  class Account {
    const storage: Storage
    const user: string

    constructor (storage: Storage, user: string)
      ensures this.storage == storage && this.user == user
    {
      this.storage := storage;
      this.user := user;
    }

    ghost predicate Live()
      reads storage
    {
      storage.Valid() && Gone(storage.cells) == {} && Slashless(user) && AccountMark(user) in storage.contracts
    }

    method Init(vk: seq<Byte>)
      requires Live() && |vk| == KEY_BYTES
      modifies storage`cells
      ensures Live() && storage.View() == InitAccount(old(storage.View()), user, vk)
    {
      hide Gone, Overlaid, Holds, CellsOk, IsIdent, Storage.StoresOk, Storage.CacheOk, Storage.View, Storage.Valid;
      storage.WriteCell(AccountKey(user), Key(vk));
      storage.WriteCell(AccountNonce(user), Number(0));
    }

    /** `setNonce`: any larger nonce will do, not only the next one. */
    method SetNonce(nonce: nat) returns (ok: bool)
      requires Live() && nonce < LIMIT_256
      modifies storage`cells
      ensures Live()
      ensures ok <==> nonce > Num(old(storage.View()), AccountNonce(user))
      ensures storage.View() == if ok then Put(old(storage.View()), AccountNonce(user), nonce) else old(storage.View())
      ensures Written(storage.cells) ==
              if ok then old(Written(storage.cells))[AccountNonce(user) := Number(nonce)] else old(Written(storage.cells))
    {
      hide Gone, Written, Overlaid, Holds, CellsOk;
      var current := ReadNumber(storage, AccountNonce(user));
      if nonce <= current {
        return false;
      }
      WriteNumber(storage, AccountNonce(user), nonce);
      return true;
    }
  }

  class Token {
    const storage: Storage
    const ident: string

    constructor (storage: Storage, ident: string)
      ensures this.storage == storage && this.ident == ident
    {
      this.storage := storage;
      this.ident := ident;
    }

    ghost predicate Live()
      reads storage
    {
      && storage.Valid() && storage.current.Some? && Gone(storage.cells) == {}
      && Slashless(ident) && TokenMark(ident) in storage.contracts
    }

    /** `init`: the base must exist, which the token itself already does. */
    method Init(base: string, curve: Eq) returns (ok: bool)
      requires Live() && Slashless(base) && Wordy(curve)
      modifies storage`cells, storage`contracts
      ensures storage.Valid()
      ensures ok <==> InitToken(old(storage.View()), ident, base, curve).Some?
      ensures ok ==> Live() && storage.View() == InitToken(old(storage.View()), ident, base, curve).value
    {
      hide Gone, Overlaid, Holds, CellsOk, IsIdent, Wordy;
      hide Storage.StoresOk, Storage.CacheOk, Storage.View, Storage.Valid;
      ok := storage.GetContract(TokenMark(base));
      if ok {
        storage.WriteCell(TokenCurve(ident), Price(curve));
        storage.WriteCell(TokenBase(ident), Name(base));
        storage.WriteCell(TokenSupply(ident), Number(0));
      }
    }

    method Mint(receiver: string, value: nat) returns (ok: bool)
      requires Live() && Slashless(receiver) && value < LIMIT_256
      modifies storage`cells
      ensures storage.Valid()
      ensures ok <==> Ledger.Mint(old(storage.View()), ident, receiver, value).Some?
      ensures ok ==> Live() && storage.View() == Ledger.Mint(old(storage.View()), ident, receiver, value).value
    {
      hide Gone, Overlaid, Holds, CellsOk, IsIdent, Storage.StoresOk, Storage.CacheOk, Storage.View, Storage.Valid;
      ok := Credit(storage, TokenBalance(ident, receiver), value);
      if ok {
        ok := Credit(storage, TokenSupply(ident), value);
      }
    }

    method Transfer(src: string, dst: string, value: nat) returns (ok: bool)
      requires Live() && Slashless(src) && Slashless(dst) && value < LIMIT_256
      modifies storage`cells
      ensures storage.Valid()
      ensures ok <==> Ledger.Transfer(old(storage.View()), ident, src, dst, value).Some?
      ensures ok ==> Live() && storage.View() == Ledger.Transfer(old(storage.View()), ident, src, dst, value).value
    {
      hide Gone, Overlaid, Holds, CellsOk, IsIdent, Storage.StoresOk, Storage.CacheOk, Storage.View, Storage.Valid;
      var balance := ReadNumber(storage, TokenBalance(ident, src));
      if balance < value {
        return false;
      }
      Debit(storage, TokenBalance(ident, src), value);
      ok := Credit(storage, TokenBalance(ident, dst), value);
    }

    /** The curve, and the base token loaded into the cache. */
    method LoadMarket() returns (market: Option<(Eq, string)>)
      requires Live() && Sane(storage.View())
      modifies storage`cells, storage`contracts
      ensures Live() && storage.View() == old(storage.View())
      ensures market == Market(storage.View(), ident)
      ensures market.Some? ==>
                && Wordy(market.value.0) && Slashless(market.value.1)
                && TokenMark(market.value.1) in storage.contracts
    {
      hide Gone, Overlaid, Holds, CellsOk;
      var curve := storage.ReadCell(TokenCurve(ident));
      if curve.None? {
        return None;
      }
      var base := storage.ReadCell(TokenBase(ident));
      var found := storage.GetContract(TokenMark(base.value.s));
      if !found {
        return None;
      }
      return Some((curve.value.curve, base.value.s));
    }

    /** The difference of the curve at two points; `None` when the curve or the subtraction throws. */
    method PriceGap(curve: Eq, from: nat, to: nat) returns (gap: Option<nat>)
      requires Wordy(curve) && from < LIMIT_256 && to < LIMIT_256
      ensures gap == Gap(curve, from, to)
    {
      var hi := Evaluate(curve, to);
      if hi.None? {
        return None;
      }
      var lo := Evaluate(curve, from);
      if lo.None? {
        return None;
      }
      return Operate(Sub, hi.value, lo.value);
    }

    /** The assignments of a buy, once the price is known to be covered. */
    method Exchange(base: string, buyer: string, value: nat, cost: nat) returns (ok: bool)
      requires Live() && Slashless(base) && Slashless(buyer) && TokenMark(base) in storage.contracts
      requires Num(storage.View(), TokenSupply(ident)) + value < LIMIT_256
      requires cost <= Num(storage.View(), TokenBalance(base, buyer))
      modifies storage`cells
      ensures Live()
      ensures ok <==> Ledger.Exchange(old(storage.View()), ident, base, buyer, value, cost).Some?
      ensures ok ==> storage.View() == Ledger.Exchange(old(storage.View()), ident, base, buyer, value, cost).value.store
    {
      hide Gone, Overlaid, Holds, CellsOk, IsIdent;
      hide Storage.StoresOk, Storage.CacheOk, Storage.View, Storage.Valid;
      Debit(storage, TokenBalance(base, buyer), cost);
      ok := Credit(storage, TokenBalance(ident, buyer), value);
      if ok {
        ok := Credit(storage, TokenSupply(ident), value);
      }
    }

    method Buy(buyer: string, value: nat) returns (paid: Option<nat>)
      requires Live() && Sane(storage.View()) && Slashless(buyer) && value < LIMIT_256
      modifies storage`cells, storage`contracts
      ensures storage.Valid()
      ensures paid.Some? <==> Ledger.Buy(old(storage.View()), ident, buyer, value).Some?
      ensures paid.Some? ==>
                && Live()
                && Trade(storage.View(), paid.value) == Ledger.Buy(old(storage.View()), ident, buyer, value).value
    {
      hide Gone, Overlaid, Holds, CellsOk, Market, Gap, Sane, IsIdent, Curves.Apply;
      hide Storage.StoresOk, Storage.CacheOk, Storage.View, Storage.Valid;
      var market := LoadMarket();
      if market.None? {
        return None;
      }
      var (curve, base) := market.value;
      var supply := ReadNumber(storage, TokenSupply(ident));
      if supply + value >= LIMIT_256 {
        return None;
      }
      var cost := PriceGap(curve, supply, supply + value);
      if cost.None? {
        return None;
      }
      var purse := ReadNumber(storage, TokenBalance(base, buyer));
      if purse < cost.value {
        return None;
      }
      var ok := Exchange(base, buyer, value, cost.value);
      paid := if ok then cost else None;
    }

    /** The assignments of a sale, once its price is known. */
    method PayOut(base: string, seller: string, value: nat, gain: nat) returns (ok: bool)
      requires Live() && Slashless(base) && Slashless(seller) && TokenMark(base) in storage.contracts
      requires value <= Num(storage.View(), TokenSupply(ident))
      requires value <= Num(storage.View(), TokenBalance(ident, seller))
      modifies storage`cells
      ensures Live()
      ensures ok <==> Ledger.PayOut(old(storage.View()), ident, base, seller, value, gain).Some?
      ensures ok ==> storage.View() == Ledger.PayOut(old(storage.View()), ident, base, seller, value, gain).value.store
    {
      hide Gone, Overlaid, Holds, CellsOk, IsIdent;
      hide Storage.StoresOk, Storage.CacheOk, Storage.View, Storage.Valid;
      Debit(storage, TokenBalance(ident, seller), value);
      ok := Credit(storage, TokenBalance(base, seller), gain);
      if ok {
        Debit(storage, TokenSupply(ident), value);
      }
    }

    method Sell(seller: string, value: nat) returns (paid: Option<nat>)
      requires Live() && Sane(storage.View()) && Slashless(seller) && value < LIMIT_256
      modifies storage`cells, storage`contracts
      ensures storage.Valid()
      ensures paid.Some? <==> Ledger.Sell(old(storage.View()), ident, seller, value).Some?
      ensures paid.Some? ==>
                && Live()
                && Trade(storage.View(), paid.value) == Ledger.Sell(old(storage.View()), ident, seller, value).value
    {
      hide Gone, Overlaid, Holds, CellsOk, Market, Gap, Sane, IsIdent, Curves.Apply;
      hide Storage.StoresOk, Storage.CacheOk, Storage.View, Storage.Valid;
      var market := LoadMarket();
      if market.None? {
        return None;
      }
      var (curve, base) := market.value;
      var balance := ReadNumber(storage, TokenBalance(ident, seller));
      if balance < value {
        return None;
      }
      var supply := ReadNumber(storage, TokenSupply(ident));
      if supply < value {
        return None;
      }
      var gain := PriceGap(curve, supply - value, supply);
      if gain.None? {
        return None;
      }
      var ok := PayOut(base, seller, value, gain.value);
      paid := if ok then gain else None;
    }
  }
}
