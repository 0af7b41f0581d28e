/**
 The keys under which contracts and their fields are stored: what src/contract/account.h,
 src/contract/token.h and the macros of src/store/data.h and src/store/map.h spell.
 */
module KeySpace {

  /** A field of a contract, or the mark that says that the contract exists. */
  datatype Field =
    | AccountMark(user: string)
    | AccountKey(user: string)
    | AccountNonce(user: string)
    | TokenMark(token: string)
    | TokenCurve(token: string)
    | TokenBase(token: string)
    | TokenSupply(token: string)
    | TokenBalance(token: string, holder: string)

  /** The identifiers of a field contain no '/'. */
  predicate Plain(f: Field) {
    match f
    case AccountMark(u) => '/' !in u
    case AccountKey(u) => '/' !in u
    case AccountNonce(u) => '/' !in u
    case TokenMark(t) => '/' !in t
    case TokenCurve(t) => '/' !in t
    case TokenBase(t) => '/' !in t
    case TokenSupply(t) => '/' !in t
    case TokenBalance(t, h) => '/' !in t && '/' !in h
  }

  predicate IsMark(f: Field) {
    f.AccountMark? || f.TokenMark?
  }

  /** The storage key of a field: the contract's prefixed key, then "/" and the name, then "/" and the entry. */
  function KeyOf(f: Field): string {
    match f
    case AccountMark(u) => "u/" + u
    case AccountKey(u) => "u/" + u + "/" + "verifyKey"
    case AccountNonce(u) => "u/" + u + "/" + "nonce"
    case TokenMark(t) => "t/" + t
    case TokenCurve(t) => "t/" + t + "/" + "curveData"
    case TokenBase(t) => "t/" + t + "/" + "baseIdent"
    case TokenSupply(t) => "t/" + t + "/" + "currentSupply"
    case TokenBalance(t, h) => "t/" + t + "/" + "balances" + "/" + h
  }

  // ---------------------------------------------------------------- paths

  /** A key as the segments between its slashes. */
  function Path(f: Field): (p: seq<string>)
    ensures |p| >= 2
  {
    match f
    case AccountMark(u) => ["u", u]
    case AccountKey(u) => ["u", u, "verifyKey"]
    case AccountNonce(u) => ["u", u, "nonce"]
    case TokenMark(t) => ["t", t]
    case TokenCurve(t) => ["t", t, "curveData"]
    case TokenBase(t) => ["t", t, "baseIdent"]
    case TokenSupply(t) => ["t", t, "currentSupply"]
    case TokenBalance(t, h) => ["t", t, "balances", h]
  }

  function Join(p: seq<string>): string
    requires p != []
  {
    if |p| == 1 then p[0] else p[0] + "/" + Join(p[1..])
  }

  ghost predicate Unslashed(p: seq<string>) {
    forall i :: 0 <= i < |p| ==> '/' !in p[i]
  }

  lemma JoinOfTwo(ns: string, a: string)
    ensures Join([ns, a]) == ns + "/" + a
  {
    assert [ns, a][1..] == [a];
  }

  lemma JoinOfThree(ns: string, a: string, b: string)
    ensures Join([ns, a, b]) == ns + "/" + a + "/" + b
  {
    assert [ns, a, b][1..] == [a, b];
    JoinOfTwo(a, b);
    assert ns + "/" + (a + "/" + b) == ns + "/" + a + "/" + b;
  }

  lemma JoinOfFour(ns: string, a: string, b: string, c: string)
    ensures Join([ns, a, b, c]) == ns + "/" + a + "/" + b + "/" + c
  {
    assert [ns, a, b, c][1..] == [a, b, c];
    JoinOfThree(a, b, c);
    assert ns + "/" + (a + "/" + b + "/" + c) == ns + "/" + a + "/" + b + "/" + c;
  }

  lemma KeyIsJoin(f: Field)
    ensures KeyOf(f) == Join(Path(f))
  {
    assert "u" + "/" == "u/" && "t" + "/" == "t/";
    var p := Path(f);
    if |p| == 2 {
      JoinOfTwo(p[0], p[1]);
    } else if |p| == 3 {
      JoinOfThree(p[0], p[1], p[2]);
    } else {
      JoinOfFour(p[0], p[1], p[2], p[3]);
    }
  }

  lemma PathUnslashed(f: Field)
    requires Plain(f)
    ensures Unslashed(Path(f))
  {
  }

  /** The first slash splits a key in one way only. */
  lemma SplitOnce(a: string, x: string, b: string, y: string)
    requires '/' !in a && '/' !in b && a + "/" + x == b + "/" + y
    ensures a == b && x == y
  {
    var s := a + "/" + x;
    assert s[..|a|] == a && s[..|b|] == b;
    assert s[|a|] == '/' && s[|b|] == '/';
    assert forall i :: 0 <= i < |a| ==> s[i] in a;
    assert forall i :: 0 <= i < |b| ==> s[i] in b;
    assert x == s[|a| + 1..] && y == s[|b| + 1..];
  }

  lemma SlashInJoin(p: seq<string>)
    requires p != [] && Unslashed(p)
    ensures '/' in Join(p) <==> |p| > 1
  {
    if |p| > 1 {
      assert Join(p)[|p[0]|] == '/';
    }
  }

  lemma {:induction false} JoinInjective(p: seq<string>, q: seq<string>)
    requires p != [] && q != [] && Unslashed(p) && Unslashed(q) && Join(p) == Join(q)
    ensures p == q
  {
    SlashInJoin(p);
    SlashInJoin(q);
    if |p| > 1 {
      SplitOnce(p[0], Join(p[1..]), q[0], Join(q[1..]));
      JoinInjective(p[1..], q[1..]);
      assert p == [p[0]] + p[1..] && q == [q[0]] + q[1..];
    }
  }

  lemma PathInjective(f: Field, g: Field)
    requires Path(f) == Path(g)
    ensures f == g
  {
    var (p, q) := (Path(f), Path(g));
    assert p[0] == q[0] && p[0][0] == q[0][0];
    assert p[1] == q[1];
    if |p| == 3 {
      assert p[2] == q[2] && |p[2]| == |q[2]| && p[2][0] == q[2][0];
    } else if |p| == 4 {
      assert p[3] == q[3];
    }
  }

  /** With identifiers free of '/', distinct fields never share a key. */
  lemma KeysDistinct(f: Field, g: Field)
    requires Plain(f) && Plain(g) && KeyOf(f) == KeyOf(g)
    ensures f == g
  {
    KeyIsJoin(f);
    KeyIsJoin(g);
    PathUnslashed(f);
    PathUnslashed(g);
    JoinInjective(Path(f), Path(g));
    PathInjective(f, g);
  }

  /** With a '/' in an identifier they can: a token named after a balance of another token takes its key. */
  lemma SlashAliases(t: string, h: string)
    ensures KeyOf(TokenMark(t + "/balances/" + h)) == KeyOf(TokenBalance(t, h))
  {
    assert "/balances/" == "/" + "balances" + "/";
    Regroup("t/", t, "/", "balances", "/", h);
  }

  /** The keys of an account, and whose key the mark of an account named `name` takes. */
  lemma AccountKeysAre(name: string, f: Field)
    ensures KeyOf(AccountMark(name)) == "u/" + name
    ensures KeyOf(AccountMark(name)) == KeyOf(f) <==>
            match f
            case AccountMark(u) => name == u
            case AccountKey(u) => name == u + "/verifyKey"
            case AccountNonce(u) => name == u + "/nonce"
            case _ => false
  {
    match f
    case AccountMark(u) => SamePrefix("u/", name, u);
    case AccountKey(u) =>
      Under("u/", u, "verifyKey");
      SamePrefix("u/", name, u + "/verifyKey");
    case AccountNonce(u) =>
      Under("u/", u, "nonce");
      SamePrefix("u/", name, u + "/nonce");
    case _ =>
      assert KeyOf(f)[0] == 't' && KeyOf(AccountMark(name))[0] == 'u';
  }

  lemma Under(p: string, u: string, field: string)
    ensures p + u + "/" + field == p + (u + ("/" + field))
    ensures "/" + "verifyKey" == "/verifyKey" && "/" + "nonce" == "/nonce"
  {
  }

  /** Exactly whose key the mark of a token named `name` takes: a field's, when the name ends like that field's key. */
  lemma MarkTakesKeyIff(name: string, f: Field)
    ensures KeyOf(TokenMark(name)) == KeyOf(f) <==>
            match f
            case TokenMark(t) => name == t
            case TokenCurve(t) => name == t + "/curveData"
            case TokenBase(t) => name == t + "/baseIdent"
            case TokenSupply(t) => name == t + "/currentSupply"
            case TokenBalance(t, h) => name == t + "/balances/" + h
            case _ => false
  {
    assert KeyOf(TokenMark(name)) == "t/" + name;
    match f
    case TokenMark(t) => SamePrefix("t/", name, t);
    case TokenCurve(t) => FieldKey(t, "curveData"); SamePrefix("t/", name, t + "/curveData");
    case TokenBase(t) => FieldKey(t, "baseIdent"); SamePrefix("t/", name, t + "/baseIdent");
    case TokenSupply(t) => FieldKey(t, "currentSupply"); SamePrefix("t/", name, t + "/currentSupply");
    case TokenBalance(t, h) =>
      SlashAliases(t, h);
      SamePrefix("t/", name, t + "/balances/" + h);
    case _ =>
      assert KeyOf(f)[0] == 'u' && KeyOf(TokenMark(name))[0] == 't';
  }

  lemma SamePrefix(p: string, a: string, b: string)
    ensures p + a == p + b <==> a == b
  {
    assert (p + a)[|p|..] == a && (p + b)[|p|..] == b;
  }

  lemma FieldKey(t: string, name: string)
    ensures "t/" + t + "/" + name == "t/" + (t + ("/" + name))
    ensures "/" + "curveData" == "/curveData" && "/" + "baseIdent" == "/baseIdent"
    ensures "/" + "currentSupply" == "/currentSupply"
  {
  }

  lemma Regroup(a: string, b: string, c: string, d: string, e: string, f: string)
    ensures a + (b + (c + d + e) + f) == a + b + c + d + e + f
  {
  }
}
