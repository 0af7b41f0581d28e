/** Transactions as bytes: the header of `parseHeader`, the message type and the message (src/listener/manager.cc, src/util/msg.h). */
module TxCodec {
  import opened Wrappers
  import opened Buffers
  import opened KeySpace
  import opened Ledger
  import opened Curves
  import opened CurveCodec
  import opened ValueCodec
  import Chain

  const SIGNATURE_BYTES: nat := 64
  const LIMIT_64: nat := 0x1_0000_0000_0000_0000

  type Read<T> = Option<(T, seq<Byte>)>

  function ReadFixed(b: seq<Byte>, n: nat): Read<seq<Byte>> {
    if |b| < n then None else Some((b[..n], b[n..]))
  }

  function ReadVarint(w: Width, b: seq<Byte>): (r: Read<nat>)
    ensures r.Some? ==> r.value.0 < Limit(w)
  {
    var n := Decode(w, b);
    if n.Value? then
      VarintIsShortest(w, b);
      Some((n.v, b[n.used..]))
    else None
  }

  function ReadHeader(b: seq<Byte>): Read<(string, nat)> {
    var user := ReadIdent(b);
    if user.None? then None
    else
      var sig := ReadFixed(user.value.1, SIGNATURE_BYTES);
      if sig.None? then None
      else
        var nonce := ReadVarint(U64, sig.value.1);
        if nonce.None? then None else Some(((user.value.0, nonce.value.0), nonce.value.1))
  }

  /** A name of the wiki graph: as an identifier, but up to 128 characters and case kept. */
  function ReadNodeId(b: seq<Byte>): (r: Read<string>)
    ensures r.Some? ==> IsNodeId(r.value.0)
  {
    var s := ReadString(b);
    if s.None? || |s.value.0| > 128 || exists i :: 0 <= i < |s.value.0| && !(32 <= s.value.0[i] <= 126) then None
    else Some((Chars(s.value.0), s.value.1))
  }

  function ReadEdge(b: seq<Byte>): (r: Option<Edge>)
    ensures r.Some? ==> IsEdge(r.value)
  {
    var subject := ReadNodeId(b);
    if subject.None? then None
    else
      var relation := ReadNodeId(subject.value.1);
      if relation.None? then None
      else
        var target := ReadNodeId(relation.value.1);
        if target.None? then None
        else
          var tag := ReadNodeId(target.value.1);
          if tag.None? then None
          else Some(Edge(subject.value.0, relation.value.0, target.value.0, tag.value.0))
  }

  function ReadAmount(b: seq<Byte>): (r: Read<(string, nat)>)
    ensures r.Some? ==> IsIdent(r.value.0.0) && r.value.0.1 < LIMIT_256
  {
    var token := ReadIdent(b);
    if token.None? then None
    else
      var value := ReadVarint(U256, token.value.1);
      if value.None? then None else Some(((token.value.0, value.value.0), value.value.1))
  }

  /** The message of a given type, 0 to 7 in the order of declaration. */
  function ReadMsg(kind: nat, b: seq<Byte>): (r: Option<Msg>)
    requires kind < 8
    ensures r.Some? ==> IsMsg(r.value)
  {
    match kind
    case 0 =>
      var vk := ReadFixed(b, KEY_BYTES);
      if vk.None? then None
      else
        var user := ReadIdent(vk.value.1);
        if user.None? then None else Some(CreateAccount(user.value.0, vk.value.0))
    case 1 =>
      var base := ReadIdent(b);
      if base.None? then None
      else
        var token := ReadIdent(base.value.1);
        if token.None? then None
        else
          var curve := Parse(token.value.1);
          if curve.None? then None
          else
            ParsedIsDumpable(token.value.1);
            Some(CreateToken(base.value.0, token.value.0, curve.value.0))
    case 2 =>
      var r := ReadAmount(b);
      if r.None? then None else Some(MintToken(r.value.0.0, r.value.0.1))
    case 3 =>
      var token := ReadIdent(b);
      if token.None? then None
      else
        var r := ReadAmount(token.value.1);
        if r.None? then None else Some(TransferToken(token.value.0, r.value.0.0, r.value.0.1))
    case 4 =>
      var r := ReadAmount(b);
      if r.None? then None else Some(BuyToken(r.value.0.0, r.value.0.1))
    case 5 =>
      var r := ReadAmount(b);
      if r.None? then None else Some(SellToken(r.value.0.0, r.value.0.1))
    case 6 =>
      var e := ReadEdge(b);
      if e.None? then None else Some(AddWikiEdge(e.value))
    case _ =>
      var e := ReadEdge(b);
      if e.None? then None else Some(RemoveWikiEdge(e.value))
  }

  /** How far a transaction can be read, and what it says. */
  function ReadTx(b: seq<Byte>): (r: Chain.Raw)
    ensures Chain.IsRaw(r)
  {
    var hdr := ReadHeader(b);
    if hdr.None? then Chain.NoHeader
    else
      var ((user, nonce), rest) := hdr.value;
      var kind := ReadVarint(U16, rest);
      if kind.None? || kind.value.0 >= 8 then Chain.NoType(user, nonce)
      else
        var msg := ReadMsg(kind.value.0, kind.value.1);
        if msg.None? then Chain.NoMessage(user, nonce) else Chain.Whole(user, nonce, msg.value)
  }

  // ---------------------------------------------------------------- writing

  function Kind(m: Msg): nat
  {
    match m
    case CreateAccount(_, _) => 0
    case CreateToken(_, _, _) => 1
    case MintToken(_, _) => 2
    case TransferToken(_, _, _) => 3
    case BuyToken(_, _) => 4
    case SellToken(_, _) => 5
    case AddWikiEdge(_) => 6
    case RemoveWikiEdge(_) => 7
  }

  function WriteEdge(e: Edge): seq<Byte> {
    WriteIdent(e.subject) + (WriteIdent(e.relation) + (WriteIdent(e.target) + WriteIdent(e.tag)))
  }

  function WriteMsg(m: Msg): seq<Byte>
  {
    match m
    case CreateAccount(u, vk) => vk + WriteIdent(u)
    case CreateToken(b, t, c) => WriteIdent(b) + (WriteIdent(t) + Dump(c))
    case MintToken(t, v) => WriteIdent(t) + Varint(v)
    case TransferToken(t, d, v) => WriteIdent(t) + (WriteIdent(d) + Varint(v))
    case BuyToken(t, v) => WriteIdent(t) + Varint(v)
    case SellToken(t, v) => WriteIdent(t) + Varint(v)
    case AddWikiEdge(e) => WriteEdge(e)
    case RemoveWikiEdge(e) => WriteEdge(e)
  }

  function WriteTx(user: string, sig: seq<Byte>, nonce: nat, m: Msg): seq<Byte>
  {
    WriteIdent(user) + (sig + (Varint(nonce) + (Varint(Kind(m)) + WriteMsg(m))))
  }

  lemma VarintReads(w: Width, v: nat, rest: seq<Byte>)
    requires v < Limit(w)
    ensures ReadVarint(w, Varint(v) + rest) == Some((v, rest))
  {
    ReadsBack(w, v, rest);
  }

  lemma AmountRoundTrip(t: string, v: nat)
    requires IsIdent(t) && v < LIMIT_256
    ensures ReadAmount(WriteIdent(t) + Varint(v)) == Some(((t, v), []))
  {
    hide ReadIdent, WriteIdent, Varint, ReadVarint;
    IdentRoundTrip(t, Varint(v));
    VarintReads(U256, v, []);
    assert Varint(v) + [] == Varint(v);
  }

  lemma NodeIdRoundTrip(s: string, rest: seq<Byte>)
    requires IsNodeId(s)
    ensures ReadNodeId(WriteIdent(s) + rest) == Some((s, rest))
  {
    hide Varint, Decode;
    ReadsBack(U64, |s|, BytesOf(s) + rest);
    assert WriteIdent(s) + rest == Varint(|s|) + (BytesOf(s) + rest);
    assert (BytesOf(s) + rest)[..|s|] == BytesOf(s) && (BytesOf(s) + rest)[|s|..] == rest;
    forall i | 0 <= i < |s|
      ensures BytesOf(s)[i] == s[i] as int && Chars(BytesOf(s))[i] == s[i] && 32 <= BytesOf(s)[i] <= 126
    {
      assert ' ' <= s[i] <= '~';
    }
    assert Chars(BytesOf(s)) == s;
  }

  lemma EdgeRoundTrip(e: Edge)
    requires IsEdge(e)
    ensures ReadEdge(WriteEdge(e)) == Some(e)
  {
    hide ReadNodeId, WriteIdent, IsNodeId;
    NodeIdRoundTrip(e.subject, WriteIdent(e.relation) + (WriteIdent(e.target) + WriteIdent(e.tag)));
    NodeIdRoundTrip(e.relation, WriteIdent(e.target) + WriteIdent(e.tag));
    NodeIdRoundTrip(e.target, WriteIdent(e.tag));
    NodeIdRoundTrip(e.tag, []);
    assert WriteIdent(e.tag) + [] == WriteIdent(e.tag);
  }

  lemma MsgRoundTrip(m: Msg)
    requires IsMsg(m)
    ensures ReadMsg(Kind(m), WriteMsg(m)) == Some(m)
  {
    hide ReadIdent, WriteIdent, Varint, ReadVarint, ReadAmount, Parse, Dump, IsIdent, ReadEdge, WriteEdge;
    match m
    case CreateAccount(u, vk) =>
      var b := WriteMsg(m);
      assert b[..KEY_BYTES] == vk && b[KEY_BYTES..] == WriteIdent(u) + [];
      IdentRoundTrip(u, []);
    case CreateToken(b, t, c) =>
      IdentRoundTrip(b, WriteIdent(t) + Dump(c));
      IdentRoundTrip(t, Dump(c));
      ParseDump(c, []);
      assert Dump(c) + [] == Dump(c);
    case TransferToken(t, d, v) =>
      IdentRoundTrip(t, WriteIdent(d) + Varint(v));
      AmountRoundTrip(d, v);
    case MintToken(t, v) => AmountRoundTrip(t, v);
    case BuyToken(t, v) => AmountRoundTrip(t, v);
    case SellToken(t, v) => AmountRoundTrip(t, v);
    case AddWikiEdge(e) => EdgeRoundTrip(e);
    case RemoveWikiEdge(e) => EdgeRoundTrip(e);
  }

  /** A transaction that was written is read as exactly its sender, nonce and message, whatever the signature. */
  lemma TxRoundTrip(user: string, sig: seq<Byte>, nonce: nat, m: Msg)
    requires IsIdent(user) && |sig| == SIGNATURE_BYTES && nonce < LIMIT_64 && IsMsg(m)
    ensures ReadTx(WriteTx(user, sig, nonce, m)) == Chain.Whole(user, nonce, m)
  {
    hide ReadIdent, WriteIdent, Varint, ReadVarint, ReadMsg, WriteMsg, IsIdent;
    var body := Varint(Kind(m)) + WriteMsg(m);
    var afterSig := Varint(nonce) + body;
    IdentRoundTrip(user, sig + afterSig);
    assert (sig + afterSig)[..SIGNATURE_BYTES] == sig && (sig + afterSig)[SIGNATURE_BYTES..] == afterSig;
    VarintReads(U64, nonce, body);
    VarintReads(U16, Kind(m), WriteMsg(m));
    MsgRoundTrip(m);
  }

  // ---------------------------------------------------------------- what the bytes of a transaction say

  /** Sender, 64 signature bytes, nonce and type number come first, in that order; the rest is the message of that type. */
  lemma ReadsType(u: string, sig: seq<Byte>, n: nat, k: nat, body: seq<Byte>)
    requires IsIdent(u) && |sig| == 64 && n < 0x1_0000_0000_0000_0000 && k < 0x1_0000
    ensures var r := ReadTx(WriteIdent(u) + sig + Varint(n) + Varint(k) + body);
            if k >= 8 then r == Chain.NoType(u, n)
            else if ReadMsg(k, body).None? then r == Chain.NoMessage(u, n)
            else r == Chain.Whole(u, n, ReadMsg(k, body).value)
  {
    hide ReadIdent, WriteIdent, Varint, ReadVarint, ReadMsg, IsIdent;
    var typed := Varint(k) + body;
    var signed := Varint(n) + typed;
    assert WriteIdent(u) + sig + Varint(n) + Varint(k) + body == WriteIdent(u) + (sig + signed);
    IdentRoundTrip(u, sig + signed);
    assert (sig + signed)[..64] == sig && (sig + signed)[64..] == signed;
    VarintReads(U64, n, typed);
    VarintReads(U16, k, body);
  }

  /** Whatever follows the nonce, the header says who sent the transaction and with which nonce. */
  lemma ReadsHeader(u: string, sig: seq<Byte>, n: nat, rest: seq<Byte>)
    requires IsIdent(u) && |sig| == 64 && n < 0x1_0000_0000_0000_0000
    ensures var r := ReadTx(WriteIdent(u) + sig + Varint(n) + rest);
            !r.NoHeader? && r.user == u && r.nonce == n
  {
    hide ReadIdent, WriteIdent, Varint, ReadVarint, ReadMsg, IsIdent;
    var signed := Varint(n) + rest;
    assert WriteIdent(u) + sig + Varint(n) + rest == WriteIdent(u) + (sig + signed);
    IdentRoundTrip(u, sig + signed);
    assert (sig + signed)[..64] == sig && (sig + signed)[64..] == signed;
    VarintReads(U64, n, rest);
  }

  /** Nothing is read of a transaction that ends within the signature or before the nonce. */
  lemma ReadsNoHeader(u: string, cut: seq<Byte>)
    requires IsIdent(u) && |cut| <= 64
    ensures ReadTx(WriteIdent(u) + cut) == Chain.NoHeader
  {
    hide ReadIdent, WriteIdent, IsIdent;
    IdentRoundTrip(u, cut);
  }

  lemma OneByteType(k: nat)
    requires k < 8
    ensures Varint(k) == [k]
  {
  }

  lemma ReadsAmount(t: string, v: nat, rest: seq<Byte>)
    requires IsIdent(t) && v < LIMIT_256
    ensures ReadAmount(WriteIdent(t) + Varint(v) + rest) == Some(((t, v), rest))
  {
    hide ReadIdent, WriteIdent, Varint, ReadVarint;
    assert WriteIdent(t) + Varint(v) + rest == WriteIdent(t) + (Varint(v) + rest);
    IdentRoundTrip(t, Varint(v) + rest);
    VarintReads(U256, v, rest);
  }

  /** Type 0 creates an account: 32 key bytes, then the name. */
  lemma ReadsCreateAccount(u: string, sig: seq<Byte>, n: nat, vk: seq<Byte>, name: string, rest: seq<Byte>)
    requires IsIdent(u) && |sig| == 64 && n < 0x1_0000_0000_0000_0000
    requires |vk| == 32 && IsIdent(name)
    ensures ReadTx(WriteIdent(u) + sig + Varint(n) + [0] + (vk + WriteIdent(name) + rest))
            == Chain.Whole(u, n, CreateAccount(name, vk))
  {
    hide ReadTx, ReadIdent, WriteIdent, Varint, IsIdent;
    var body := vk + WriteIdent(name) + rest;
    OneByteType(0);
    ReadsType(u, sig, n, 0, body);
    assert body[..32] == vk && body[32..] == WriteIdent(name) + rest;
    IdentRoundTrip(name, rest);
  }

  /** Type 1 creates a token: first the base, then the new token, then its curve. */
  lemma ReadsCreateToken(u: string, sig: seq<Byte>, n: nat, base: string, token: string, e: Eq, rest: seq<Byte>)
    requires IsIdent(u) && |sig| == 64 && n < 0x1_0000_0000_0000_0000
    requires IsIdent(base) && IsIdent(token) && Wordy(e)
    ensures ReadTx(WriteIdent(u) + sig + Varint(n) + [1] + (WriteIdent(base) + WriteIdent(token) + Dump(e) + rest))
            == Chain.Whole(u, n, CreateToken(base, token, e))
  {
    hide ReadTx, ReadIdent, WriteIdent, Varint, Parse, Dump, IsIdent;
    var body := WriteIdent(base) + WriteIdent(token) + Dump(e) + rest;
    OneByteType(1);
    ReadsType(u, sig, n, 1, body);
    assert body == WriteIdent(base) + (WriteIdent(token) + (Dump(e) + rest));
    IdentRoundTrip(base, WriteIdent(token) + (Dump(e) + rest));
    IdentRoundTrip(token, Dump(e) + rest);
    ParseDump(e, rest);
  }

  /** Types 2, 4 and 5 mint, buy and sell: the token, then the amount. */
  lemma ReadsMintBuySell(u: string, sig: seq<Byte>, n: nat, t: string, v: nat, rest: seq<Byte>)
    requires IsIdent(u) && |sig| == 64 && n < 0x1_0000_0000_0000_0000
    requires IsIdent(t) && v < LIMIT_256
    ensures var (opening, body) := (WriteIdent(u) + sig + Varint(n), WriteIdent(t) + Varint(v) + rest);
            && ReadTx(opening + [2] + body) == Chain.Whole(u, n, MintToken(t, v))
            && ReadTx(opening + [4] + body) == Chain.Whole(u, n, BuyToken(t, v))
            && ReadTx(opening + [5] + body) == Chain.Whole(u, n, SellToken(t, v))
  {
    hide ReadTx, ReadAmount, WriteIdent, Varint, IsIdent;
    var body := WriteIdent(t) + Varint(v) + rest;
    OneByteType(2);
    OneByteType(4);
    OneByteType(5);
    ReadsAmount(t, v, rest);
    ReadsType(u, sig, n, 2, body);
    ReadsType(u, sig, n, 4, body);
    ReadsType(u, sig, n, 5, body);
  }

  /** Type 3 transfers: the token, then the receiver, then the amount. */
  lemma ReadsTransfer(u: string, sig: seq<Byte>, n: nat, t: string, dest: string, v: nat, rest: seq<Byte>)
    requires IsIdent(u) && |sig| == 64 && n < 0x1_0000_0000_0000_0000
    requires IsIdent(t) && IsIdent(dest) && v < LIMIT_256
    ensures ReadTx(WriteIdent(u) + sig + Varint(n) + [3] + (WriteIdent(t) + WriteIdent(dest) + Varint(v) + rest))
            == Chain.Whole(u, n, TransferToken(t, dest, v))
  {
    hide ReadTx, ReadIdent, ReadAmount, WriteIdent, Varint, IsIdent;
    var body := WriteIdent(t) + WriteIdent(dest) + Varint(v) + rest;
    OneByteType(3);
    ReadsType(u, sig, n, 3, body);
    assert body == WriteIdent(t) + (WriteIdent(dest) + Varint(v) + rest);
    IdentRoundTrip(t, WriteIdent(dest) + Varint(v) + rest);
    ReadsAmount(dest, v, rest);
  }

  /** Types 6 and 7 add and remove an edge of the wiki graph: subject, predicate, object and label. */
  lemma ReadsEdges(u: string, sig: seq<Byte>, n: nat, e: Edge, rest: seq<Byte>)
    requires IsIdent(u) && |sig| == 64 && n < 0x1_0000_0000_0000_0000 && IsEdge(e)
    ensures var opening := WriteIdent(u) + sig + Varint(n);
            var body := WriteIdent(e.subject) + WriteIdent(e.relation) + WriteIdent(e.target) + WriteIdent(e.tag) + rest;
            && ReadTx(opening + [6] + body) == Chain.Whole(u, n, AddWikiEdge(e))
            && ReadTx(opening + [7] + body) == Chain.Whole(u, n, RemoveWikiEdge(e))
  {
    hide ReadTx, ReadEdge, WriteIdent, Varint, IsIdent, IsNodeId;
    var body := WriteIdent(e.subject) + WriteIdent(e.relation) + WriteIdent(e.target) + WriteIdent(e.tag) + rest;
    OneByteType(6);
    OneByteType(7);
    ReadsEdge(e, rest);
    ReadsType(u, sig, n, 6, body);
    ReadsType(u, sig, n, 7, body);
  }

  lemma ReadsEdge(e: Edge, rest: seq<Byte>)
    requires IsEdge(e)
    ensures ReadEdge(WriteIdent(e.subject) + WriteIdent(e.relation) + WriteIdent(e.target) + WriteIdent(e.tag) + rest) == Some(e)
  {
    hide ReadNodeId, WriteIdent, IsNodeId;
    var (a, b, c, d) := (WriteIdent(e.subject), WriteIdent(e.relation), WriteIdent(e.target), WriteIdent(e.tag));
    assert a + b + c + d + rest == a + (b + (c + (d + rest)));
    NodeIdRoundTrip(e.subject, b + (c + (d + rest)));
    NodeIdRoundTrip(e.relation, c + (d + rest));
    NodeIdRoundTrip(e.target, d + rest);
    NodeIdRoundTrip(e.tag, rest);
  }

  /** A name of the wiki graph: exactly up to 128 printable characters are accepted, each standing for itself. */
  lemma ReadsNodeSpelling(b: seq<Byte>, rest: seq<Byte>)
    requires |b| < 0x1_0000_0000_0000_0000
    ensures var r := ReadNodeId(Varint(|b|) + b + rest);
            && (r.Some? <==> |b| <= 128 && forall i :: 0 <= i < |b| ==> 32 <= b[i] <= 126)
            && (r.Some? ==>
                  && r.value.1 == rest && |r.value.0| == |b|
                  && forall i :: 0 <= i < |b| ==> r.value.0[i] as int == b[i])
  {
    hide Varint, ReadString;
    LengthThenBytes(b, rest);
  }
}
