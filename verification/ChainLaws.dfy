/** What every run of a node keeps: agreement of its stores, atomicity, replay safety, isolation of checks. */
module ChainLaws {
  import opened Wrappers
  import opened Buffers
  import opened KeySpace
  import opened Ledger
  import opened Chain

  const LIMIT_64: nat := 0x1_0000_0000_0000_0000

  // ---------------------------------------------------------------- the invariant

  /** Only nonces are ever pending between steps, of accounts that exist, and above the stored ones. */
  ghost predicate OnlyNonces(applied: Store, pending: Store) {
    forall f :: f in pending ==>
      && f.AccountNonce? && Owner(f) in applied
      && pending[f].Number? && Num(applied, f) < pending[f].n < LIMIT_64
  }

  /** The two stores differ only by the marks of tokens whose creation failed. */
  ghost predicate Agree(n: Node) {
    && (forall f :: f in n.checked ==> f in n.applied && n.applied[f] == n.checked[f])
    && (forall f :: f in n.applied && f !in n.checked ==> f.TokenMark?)
  }

  ghost predicate Settled(n: Node) {
    && Sane(n.applied) && Agree(n)
    && OnlyNonces(n.applied, n.pending)
    && (n.mode == None ==> n.pending == map[])
  }

  lemma StartSettled(g: Genesis)
    requires IsGenesis(g)
    ensures Settled(Start(g))
  {
    hide Handle, Residue, Fitting;
    var msgs := GenesisMsgs(g);
    StartIsHandled(g);
    OutcomeStaysSane(map[], "", msgs[0]);
    OutcomeStaysSane(Outcome(map[], "", msgs[0]), "", msgs[1]);
  }

  /** The genesis store is what the two genesis messages make of the empty store. */
  lemma StartIsHandled(g: Genesis)
    ensures GenesisStore(g) == Outcome(Outcome(map[], "", GenesisMsgs(g)[0]), "", GenesisMsgs(g)[1])
  {
  }

  lemma AgreedNum(n: Node, f: Field)
    requires Agree(n) && !f.TokenMark?
    ensures Num(n.checked, f) == Num(n.applied, f) && (f in n.checked <==> f in n.applied)
  {
  }

  /** Both modes validate against the same accounts. */
  lemma ValidateSettled(n: Node, mode: Mode, user: string, nonce: nat)
    requires Settled(n) && nonce < LIMIT_64
    ensures Settled(Validate(n, mode, user, nonce).node)
    ensures Validate(n, mode, user, nonce).ok <==>
            AccountMark(user) in n.applied && nonce > Num(n.applied + n.pending, AccountNonce(user))
  {
    AgreedNum(n, AccountMark(user));
    AgreedNum(n, AccountNonce(user));
    var f := AccountNonce(user);
    if f in n.pending {
      assert Num(n.applied, f) < n.pending[f].n;
    }
  }

  lemma ViewIsSane(n: Node)
    requires Settled(n)
    ensures Sane(n.applied + n.pending)
  {
    assert LIMIT_64 < LIMIT_256;
  }

  lemma ProcessSettled(n: Node, user: string, m: Msg)
    requires Settled(n) && Admissible(user, m)
    ensures Settled(Process(n, user, m).node)
  {
    hide Handle, Residue, Sane;
    ViewIsSane(n);
    var r := Handle(n.applied + n.pending, user, m);
    if r.Some? {
      HandleStaysSane(n.applied + n.pending, user, m);
      Committed(r.value);
    } else {
      ResidueSettled(n, m);
    }
  }

  lemma Committed(s: Store)
    requires Sane(s)
    ensures Settled(Node(s, s, None, map[]))
  {
    hide Sane;
  }

  /** The mark of a failed create is the one thing the check store may lack. */
  lemma ResidueSettled(n: Node, m: Msg)
    requires Settled(n) && PlainMsg(m)
    ensures Settled(Node(Residue(n.applied, m), n.checked, Some(Applying), map[]))
  {
  }

  lemma NextSettled(n: Node, e: Event)
    requires Settled(n) && RawOk(e)
    ensures Settled(Next(n, e))
  {
    hide Process;
    match e
    case BeginBlock =>
    case CheckTx(raw) =>
      if !raw.NoHeader? {
        ValidateSettled(n, Checking, raw.user, raw.nonce);
      }
    case ApplyTx(raw) =>
      if !raw.NoHeader? && !raw.NoType? {
        ValidateSettled(n, Applying, raw.user, raw.nonce);
        var v := Validate(n, Applying, raw.user, raw.nonce);
        if raw.Whole? && v.ok {
          ProcessSettled(v.node, raw.user, raw.msg);
        }
      }
    case CommitBlock => ViewIsSane(n);
  }

  /** Nothing is pending while no store is in use, and the two stores agree, in every run. */
  lemma {:induction false} RunSettled(g: Genesis, events: seq<Event>)
    requires IsGenesis(g) && Readable(events)
    ensures Settled(Run(g, events))
  {
    hide Settled, Next;
    if events == [] {
      StartSettled(g);
    } else {
      RunSettled(g, events[..|events| - 1]);
      NextSettled(Run(g, events[..|events| - 1]), events[|events| - 1]);
    }
  }

  // ---------------------------------------------------------------- atomicity

  /** A transaction as one step on a plain store: the nonce and the message together, or nothing. */
  function Direct(s: Store, user: string, nonce: nat, m: Msg): Option<Store> {
    if AccountMark(user) !in s || nonce <= Num(s, AccountNonce(user)) then None
    else Handle(Put(s, AccountNonce(user), nonce), user, m)
  }

  /**
   A transaction takes effect as a whole on what the node sees, pending nonces
   included, or leaves the apply store alone but for the mark of a failed create.
   */
  lemma ApplyIsAtomic(n: Node, user: string, nonce: nat, m: Msg)
    ensures var (r, d) := (Apply(n, Whole(user, nonce, m)), Direct(n.applied + n.pending, user, nonce, m));
            && (r.ok <==> d.Some?)
            && (r.ok ==> r.node == Node(d.value, d.value, None, map[]))
            && (!r.ok ==> r.node.checked == n.checked && r.node.mode == Some(Applying))
            && (!r.ok && Validate(n, Applying, user, nonce).ok ==>
                  r.node.pending == map[] && r.node.applied == Residue(n.applied, m))
            && (!Validate(n, Applying, user, nonce).ok ==>
                  !r.ok && r.node.pending == n.pending && r.node.applied == n.applied)
  {
    hide Handle, Residue;
    var f := AccountNonce(user);
    assert n.applied + n.pending[f := Number(nonce)] == Put(n.applied + n.pending, f, nonce);
  }

  /** The one transaction that changes the apply store although it throws: a new token on a missing base. */
  lemma ResidueExactly(s: Store, user: string, m: Msg)
    ensures Handle(s, user, m).None? && Residue(s, m) != s <==>
            m.CreateToken? && TokenMark(m.token) !in s && TokenMark(m.base) !in s && m.base != m.token
  {
    if m.CreateToken? && TokenMark(m.token) !in s {
      assert TokenMark(m.token) in Residue(s, m);
    }
  }

  // ---------------------------------------------------------------- replay safety

  datatype Stamp = Stamp(user: string, nonce: nat)

  /** The transactions that took effect, in order. */
  function Effects(g: Genesis, events: seq<Event>): seq<Stamp> {
    if events == [] then []
    else
      var (before, last) := (events[..|events| - 1], events[|events| - 1]);
      Effects(g, before)
      + if last.ApplyTx? && last.raw.Whole? && Apply(Run(g, before), last.raw).ok
        then [Stamp(last.raw.user, last.raw.nonce)] else []
  }

  function StoredNonce(n: Node, user: string): nat {
    Num(n.applied, AccountNonce(user))
  }

  /** Handlers only ever write the nonce of an account they create. */
  lemma HandleKeepsNonces(s: Store, user: string, m: Msg, u: string)
    requires Sane(s) && Handle(s, user, m).Some?
    ensures Num(Handle(s, user, m).value, AccountNonce(u)) == Num(s, AccountNonce(u))
  {
    if m.CreateAccount? && m.user == u {
      assert AccountNonce(u) in s ==> Owner(AccountNonce(u)) in s;
    }
  }

  lemma PendingOnTop(n: Node, u: string)
    requires Settled(n)
    ensures Num(n.applied + n.pending, AccountNonce(u)) >= StoredNonce(n, u)
  {
    if AccountNonce(u) in n.pending {
      assert Num(n.applied, AccountNonce(u)) < n.pending[AccountNonce(u)].n;
    }
  }

  lemma ProcessedNonce(n: Node, user: string, m: Msg, u: string)
    requires Settled(n)
    ensures StoredNonce(Process(n, user, m).node, u) >= StoredNonce(n, u)
    ensures Process(n, user, m).ok ==>
              StoredNonce(Process(n, user, m).node, u) == Num(n.applied + n.pending, AccountNonce(u))
  {
    hide Handle, Settled;
    if Process(n, user, m).ok {
      ViewIsSane(n);
      HandleKeepsNonces(n.applied + n.pending, user, m, u);
      PendingOnTop(n, u);
    }
  }

  /** No step lowers a stored nonce, and a transaction that takes effect raises its sender's to its own. */
  lemma NonceGrows(n: Node, e: Event, u: string)
    requires Settled(n) && RawOk(e)
    ensures StoredNonce(Next(n, e), u) >= StoredNonce(n, u)
    ensures e.ApplyTx? && e.raw.Whole? && Apply(n, e.raw).ok ==>
              e.raw.nonce > StoredNonce(n, e.raw.user) && StoredNonce(Next(n, e), e.raw.user) == e.raw.nonce
  {
    hide Settled, Process;
    match e
    case ApplyTx(raw) =>
      if !raw.NoHeader? && !raw.NoType? {
        var v := Validate(n, Applying, raw.user, raw.nonce);
        ValidateSettled(n, Applying, raw.user, raw.nonce);
        PendingOnTop(n, raw.user);
        if raw.Whole? && v.ok {
          ProcessedNonce(v.node, raw.user, raw.msg, u);
          ProcessedNonce(v.node, raw.user, raw.msg, raw.user);
        }
      }
    case CommitBlock => PendingOnTop(n, u);
    case _ =>
  }

  ghost predicate Stamped(n: Node, effects: seq<Stamp>) {
    && (forall i :: 0 <= i < |effects| ==> effects[i].nonce <= StoredNonce(n, effects[i].user))
    && NeverReplayed(effects)
  }

  /** Each user's effective nonces strictly increase. */
  ghost predicate NeverReplayed(effects: seq<Stamp>) {
    forall i, j :: 0 <= i < j < |effects| && effects[i].user == effects[j].user ==> effects[i].nonce < effects[j].nonce
  }

  lemma {:induction false} RunStamped(g: Genesis, events: seq<Event>)
    requires IsGenesis(g) && Readable(events)
    ensures Stamped(Run(g, events), Effects(g, events))
  {
    hide Settled, Next, Apply, StoredNonce;
    if events != [] {
      var (before, last) := (events[..|events| - 1], events[|events| - 1]);
      RunStamped(g, before);
      RunSettled(g, before);
      forall u
        ensures StoredNonce(Next(Run(g, before), last), u) >= StoredNonce(Run(g, before), u)
      {
        NonceGrows(Run(g, before), last, u);
      }
      NonceGrows(Run(g, before), last, "");
    }
  }

  /** In every run, checks and failures included, no pair of user and nonce takes effect twice. */
  lemma RunNeverReplays(g: Genesis, events: seq<Event>)
    requires IsGenesis(g) && Readable(events)
    ensures NeverReplayed(Effects(g, events))
  {
    RunStamped(g, events);
  }

  /** A nonce whose message cannot be read is committed with the block; one whose handler throws is not. */
  lemma NonceFates(n: Node, user: string, nonce: nat, m: Msg)
    requires Settled(n) && nonce < LIMIT_64 && Validate(n, Applying, user, nonce).ok
    ensures StoredNonce(Commit(Apply(n, NoMessage(user, nonce)).node), user) == nonce
    ensures !Apply(n, Whole(user, nonce, m)).ok ==>
              StoredNonce(Commit(Apply(n, Whole(user, nonce, m)).node), user) == StoredNonce(n, user)
  {
    hide Handle;
  }
}
