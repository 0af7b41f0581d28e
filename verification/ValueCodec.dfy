/**
 How identifiers, stored values and transactions are written as bytes:
 the string codec of src/util/buffer.cc, the identifiers of src/util/string.cc,
 and the field order of src/util/msg.h and `parseHeader`.
 */
module ValueCodec {
  import opened Wrappers
  import opened Buffers
  import opened KeySpace
  import opened Ledger
  import opened CurveCodec
  import Curves

  // ---------------------------------------------------------------- strings and identifiers

  function BytesOf(s: string): (b: seq<Byte>)
    ensures |b| == |s|
  {
    seq(|s|, i requires 0 <= i < |s| => s[i] as int % 256)
  }

  function Chars(b: seq<Byte>): (s: string)
    ensures |s| == |b|
  {
    seq(|b|, i requires 0 <= i < |b| => b[i] as char)
  }

  function Lower(s: string): (r: string)
    ensures |r| == |s|
  {
    seq(|s|, i requires 0 <= i < |s| => if 'A' <= s[i] <= 'Z' then s[i] + 32 as char else s[i])
  }

  /** `String::validate`: too long and unprintable strings throw, capitals are lowered. */
  function Validated(b: seq<Byte>): (r: Option<string>)
    ensures r.Some? ==> IsIdent(r.value)
  {
    if |b| > 20 || exists i :: 0 <= i < |b| && !(32 <= b[i] <= 126) then None else Some(Lower(Chars(b)))
  }

  function WriteIdent(s: string): seq<Byte> {
    Varint(|s|) + BytesOf(s)
  }

  function ReadString(b: seq<Byte>): (r: Option<(seq<Byte>, seq<Byte>)>)
    ensures r.Some? ==> |r.value.1| < |b|
  {
    var n := Decode(U64, b);
    if !n.Value? || |b| - n.used < n.v then None
    else Some((b[n.used..][..n.v], b[n.used..][n.v..]))
  }

  function ReadIdent(b: seq<Byte>): (r: Option<(string, seq<Byte>)>)
    ensures r.Some? ==> IsIdent(r.value.0) && |r.value.1| < |b|
  {
    var s := ReadString(b);
    if s.None? then None
    else
      var ident := Validated(s.value.0);
      if ident.None? then None else Some((ident.value, s.value.1))
  }

  lemma ValidatedBytes(s: string)
    requires IsIdent(s)
    ensures Validated(BytesOf(s)) == Some(s)
  {
    forall i | 0 <= i < |s|
      ensures BytesOf(s)[i] == s[i] as int && Chars(BytesOf(s))[i] == s[i] && Lower(Chars(BytesOf(s)))[i] == s[i]
    {
      assert ' ' <= s[i] <= '~';
    }
    assert Lower(Chars(BytesOf(s))) == s;
  }

  lemma IdentRoundTrip(s: string, rest: seq<Byte>)
    requires IsIdent(s)
    ensures ReadIdent(WriteIdent(s) + rest) == Some((s, rest))
  {
    hide Varint, Decode, Validated;
    ReadsBack(U64, |s|, BytesOf(s) + rest);
    assert WriteIdent(s) + rest == Varint(|s|) + (BytesOf(s) + rest);
    assert (BytesOf(s) + rest)[..|s|] == BytesOf(s) && (BytesOf(s) + rest)[|s|..] == rest;
    ValidatedBytes(s);
  }

  /** The two names that `initChain` spells. */
  lemma GenesisNames()
    ensures Validated(BytesOf("BandGod")) == Some("bandgod") && Validated(BytesOf("Band")) == Some("band")
    ensures IsIdent("bandgod") && IsIdent("band")
  {
    assert Validated(BytesOf("BandGod")).value == "bandgod" && Validated(BytesOf("Band")).value == "band";
  }

  lemma LengthThenBytes(b: seq<Byte>, rest: seq<Byte>)
    requires |b| < Limit(U64)
    ensures ReadString(Varint(|b|) + b + rest) == Some((b, rest))
  {
    hide Varint, Decode;
    ReadsBack(U64, |b|, b + rest);
    assert Varint(|b|) + b + rest == Varint(|b|) + (b + rest);
    assert (b + rest)[..|b|] == b && (b + rest)[|b|..] == rest;
  }

  /**
   Reading the identifier spelled by any bytes: exactly up to 20 printable characters are accepted, each
   capital stands for its small letter, every other character for itself, and what follows is left.
   */
  lemma ReadsSpelling(b: seq<Byte>, rest: seq<Byte>)
    requires |b| < 0x1_0000_0000_0000_0000
    ensures var r := ReadIdent(Varint(|b|) + b + rest);
            && (r.Some? <==> |b| <= 20 && forall i :: 0 <= i < |b| ==> 32 <= b[i] <= 126)
            && (r.Some? ==>
                  && r.value.1 == rest && |r.value.0| == |b|
                  && forall i :: 0 <= i < |b| ==> r.value.0[i] as int == if 65 <= b[i] <= 90 then b[i] + 32 else b[i])
  {
    hide Varint, Decode, ReadString;
    LengthThenBytes(b, rest);
  }

  /** Two accepted spellings name the same user exactly when they agree up to capitals. */
  lemma CaseIsIgnored(b: seq<Byte>, c: seq<Byte>, rest: seq<Byte>, more: seq<Byte>)
    requires |b| < 0x1_0000_0000_0000_0000 && |c| < 0x1_0000_0000_0000_0000
    requires ReadIdent(Varint(|b|) + b + rest).Some? && ReadIdent(Varint(|c|) + c + more).Some?
    ensures ReadIdent(Varint(|b|) + b + rest).value.0 == ReadIdent(Varint(|c|) + c + more).value.0 <==>
            |b| == |c| && forall i :: 0 <= i < |b| ==>
              b[i] == c[i] || (65 <= b[i] <= 90 && c[i] == b[i] + 32) || (65 <= c[i] <= 90 && b[i] == c[i] + 32)
  {
    hide ReadIdent, Varint;
    ReadsSpelling(b, rest);
    ReadsSpelling(c, more);
    var (s, t) := (ReadIdent(Varint(|b|) + b + rest).value.0, ReadIdent(Varint(|c|) + c + more).value.0);
    if |b| == |c| {
      forall i | 0 <= i < |b|
        ensures s[i] == t[i] <==>
                b[i] == c[i] || (65 <= b[i] <= 90 && c[i] == b[i] + 32) || (65 <= c[i] <= 90 && b[i] == c[i] + 32)
      {
        assert s[i] as int == if 65 <= b[i] <= 90 then b[i] + 32 else b[i];
        assert t[i] as int == if 65 <= c[i] <= 90 then c[i] + 32 else c[i];
      }
    }
  }

  // ---------------------------------------------------------------- stored values

  /** What the store holds for a field. */
  function Encode(f: Field, v: Value): seq<Byte> {
    match v
    case Mark => BytesOf(KeyOf(f))
    case Number(n) => Varint(n)
    case Name(s) => WriteIdent(s)
    case Price(e) => Dump(e)
    case Key(k) => k
  }

  /** What a data wrapper of that field reads from the store; bytes left over are ignored. */
  function DecodeValue(f: Field, b: seq<Byte>): Option<Value>
    requires !IsMark(f)
  {
    match f
    case AccountKey(_) => if |b| < KEY_BYTES then None else Some(Key(b[..KEY_BYTES]))
    case TokenCurve(_) =>
      var e := Parse(b);
      if e.None? then None else Some(Price(e.value.0))
    case TokenBase(_) =>
      var s := ReadIdent(b);
      if s.None? then None else Some(Name(s.value.0))
    case AccountNonce(_) | TokenSupply(_) | TokenBalance(_, _) =>
      var n := Decode(U256, b);
      if n.Value? then Some(Number(n.v)) else None
  }

  /** A stored value reads back as itself. */
  lemma ValueRoundTrip(f: Field, v: Value)
    requires !IsMark(f) && Fitting(f, v)
    ensures DecodeValue(f, Encode(f, v)) == Some(v)
  {
    hide Varint, Decode, Parse, ReadIdent;
    assert Encode(f, v) + [] == Encode(f, v);
    match v
    case Number(n) => ReadsBack(U256, n, []);
    case Name(s) => IdentRoundTrip(s, []);
    case Price(e) => ParseDump(e, []);
    case Key(k) => assert k[..KEY_BYTES] == k;
  }

  /** What stored bytes say: numbers as varints, a key as its 32 bytes, a curve as its prefix code, a base as an identifier. */
  lemma ReadsStored(u: string, t: string, h: string, n: nat, k: seq<Byte>, e: Curves.Eq, b: seq<Byte>, rest: seq<Byte>)
    requires n < LIMIT_256 && |k| == 32 && Curves.Wordy(e) && |b| <= 20 && forall i :: 0 <= i < |b| ==> 32 <= b[i] <= 126
    ensures DecodeValue(AccountKey(u), k + rest) == Some(Key(k))
    ensures DecodeValue(AccountNonce(u), Varint(n) + rest) == Some(Number(n))
    ensures DecodeValue(TokenSupply(t), Varint(n) + rest) == Some(Number(n))
    ensures DecodeValue(TokenBalance(t, h), Varint(n) + rest) == Some(Number(n))
    ensures DecodeValue(TokenCurve(t), Dump(e) + rest) == Some(Price(e))
    ensures var base := DecodeValue(TokenBase(t), Varint(|b|) + b + rest);
            base.Some? && base.value.Name? && ReadIdent(Varint(|b|) + b + rest) == Some((base.value.s, rest))
  {
    hide Varint, Decode, Parse, Dump, ReadIdent;
    assert (k + rest)[..32] == k;
    ReadsBack(U256, n, rest);
    ParseDump(e, rest);
    ReadsSpelling(b, rest);
  }

  /**
   Why identifiers must be free of '/': creating a token named like a balance of another puts its mark at the
   key of that balance, where it reads as 116 units that no supply accounts for.
   */
  lemma SlashMintsUnits(t: string, h: string, base: string, curve: Curves.Eq)
    requires IsIdent(t + "/balances/" + h) && IsIdent(base) && Curves.Wordy(curve)
    ensures var name := t + "/balances/" + h;
            && IsMsg(CreateToken(base, name, curve)) && !PlainMsg(CreateToken(base, name, curve))
            && KeyOf(TokenMark(name)) == KeyOf(TokenBalance(t, h))
            && DecodeValue(TokenBalance(t, h), Encode(TokenMark(name), Mark)) == Some(Number(116))
  {
    var name := t + "/balances/" + h;
    SlashAliases(t, h);
    assert name[|t|] == '/';
    var b := Encode(TokenMark(name), Mark);
    assert b[0] == 't' as int == 116 && b == [116] + b[1..] && Varint(116) == [116];
    VarintRoundTrip(U256, 116, b[1..]);
  }

  method Serialize(f: Field, v: Value) returns (b: seq<Byte>)
    ensures b == Encode(f, v)
  {
    var buffer := new Buffer([]);
    match v {
      case Mark => buffer.Append(BytesOf(KeyOf(f)));
      case Number(n) => buffer.PushVarint(n);
      case Name(s) => PushIdent(buffer, s);
      case Price(e) => DumpTo(e, buffer);
      case Key(k) => buffer.Append(k);
    }
    assert buffer.buf == [] + Encode(f, v);
    b := buffer.buf;
  }

  method Deserialize(f: Field, b: seq<Byte>) returns (v: Option<Value>)
    requires !IsMark(f)
    ensures v == DecodeValue(f, b)
  {
    var buffer := new Buffer(b);
    v := None;
    match f
    case AccountKey(_) =>
      var k := buffer.Take(KEY_BYTES);
      if k.Some? {
        v := Some(Key(k.value));
      }
    case TokenCurve(_) =>
      var e := ParseFrom(buffer);
      if e.Some? {
        v := Some(Price(e.value));
      }
    case TokenBase(_) =>
      var s := PopIdent(buffer);
      if s.Some? {
        v := Some(Name(s.value));
      }
    case AccountNonce(_) | TokenSupply(_) | TokenBalance(_, _) =>
      var n := buffer.PopVarint(U256);
      if n.Value? {
        v := Some(Number(n.v));
      }
  }

  method PushIdent(buffer: Buffer, s: string)
    modifies buffer
    ensures buffer.buf == old(buffer.buf) + WriteIdent(s)
  {
    buffer.PushVarint(|s|);
    buffer.Append(BytesOf(s));
  }

  method PopIdent(buffer: Buffer) returns (s: Option<string>)
    modifies buffer
    ensures s.Some? <==> ReadIdent(old(buffer.buf)).Some?
    ensures s.Some? ==> (s.value, buffer.buf) == ReadIdent(old(buffer.buf)).value
  {
    var n := buffer.PopVarint(U64);
    if !n.Value? {
      return None;
    }
    var b := buffer.Take(n.v);
    if b.None? {
      return None;
    }
    s := Validated(b.value);
  }
}
