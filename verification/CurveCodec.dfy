/**
 How curves travel and how they print: the prefix code of `dump` and `parse` and
 the text of `to_string` (src/util/equation.cc).
 */
module CurveCodec {
  import opened Wrappers
  import opened Buffers
  import opened Curves

  // ---------------------------------------------------------------- opcodes

  function OpCode(op: Op): (c: nat)
    ensures 1 <= c <= 6
  {
    match op
    case Add => 1
    case Sub => 2
    case Mul => 3
    case Div => 4
    case Mod => 5
    case Exp => 6
  }

  function OpOf(c: nat): Op
    requires 1 <= c <= 6
  {
    match c
    case 1 => Add
    case 2 => Sub
    case 3 => Mul
    case 4 => Div
    case 5 => Mod
    case _ => Exp
  }

  const CONSTANT: nat := 7
  const VARIABLE: nat := 8

  // ---------------------------------------------------------------- dump and parse

  function Dump(e: Eq): (s: seq<Byte>)
    ensures s != []
  {
    match e
    case Binary(op, l, r) => Varint(OpCode(op)) + Dump(l) + Dump(r)
    case Constant(c) => Varint(CONSTANT) + Varint(c)
    case Variable => Varint(VARIABLE)
  }

  /** `Eq::parse`: an expression and what follows it, or `None` when it throws. */
  function Parse(s: seq<Byte>): (r: Option<(Eq, seq<Byte>)>)
    ensures r.Some? ==> |r.value.1| < |s|
    decreases |s|
  {
    var opcode := Decode(U16, s);
    if !opcode.Value? then None
    else if 1 <= opcode.v <= 6 then
      var left := Parse(s[opcode.used..]);
      if left.None? then None
      else
        var right := Parse(left.value.1);
        if right.None? then None
        else Some((Binary(OpOf(opcode.v), left.value.0, right.value.0), right.value.1))
    else if opcode.v == CONSTANT then
      var constant := Decode(U256, s[opcode.used..]);
      if !constant.Value? then None
      else Some((Constant(constant.v), s[opcode.used..][constant.used..]))
    else if opcode.v == VARIABLE then Some((Variable, s[opcode.used..]))
    else None
  }

  lemma ReadsBack(w: Width, v: nat, rest: seq<Byte>)
    requires v < Limit(w)
    ensures Decode(w, Varint(v) + rest) == Value(v, |Varint(v)|)
    ensures (Varint(v) + rest)[|Varint(v)|..] == rest
  {
    VarintRoundTrip(w, v, rest);
  }

  /** Parsing by the opcode at the front. */
  lemma ParseByOpcode(c: nat, rest: seq<Byte>)
    requires c < 0x1_0000
    ensures c == VARIABLE ==> Parse(Varint(c) + rest) == Some((Variable, rest))
    ensures c == CONSTANT && Decode(U256, rest).Value? ==>
              Parse(Varint(c) + rest) == Some((Constant(Decode(U256, rest).v), rest[Decode(U256, rest).used..]))
    ensures 1 <= c <= 6 && Parse(rest).Some? && Parse(Parse(rest).value.1).Some? ==>
              var left := Parse(rest).value;
              var right := Parse(left.1).value;
              Parse(Varint(c) + rest) == Some((Binary(OpOf(c), left.0, right.0), right.1))
  {
    hide Varint, Decode;
    ReadsBack(U16, c, rest);
  }

  /** Parsing a dump gives the expression back and leaves whatever follows the dump. */
  lemma {:induction false} ParseDump(e: Eq, rest: seq<Byte>)
    requires Wordy(e)
    ensures Parse(Dump(e) + rest) == Some((e, rest))
  {
    hide Varint, Decode, Parse;
    match e
    case Binary(op, l, r) =>
      ParseDump(l, Dump(r) + rest);
      ParseDump(r, rest);
      ParseByOpcode(OpCode(op), Dump(l) + (Dump(r) + rest));
      assert Dump(e) + rest == Varint(OpCode(op)) + (Dump(l) + (Dump(r) + rest));
    case Constant(c) =>
      ReadsBack(U256, c, rest);
      ParseByOpcode(CONSTANT, Varint(c) + rest);
      assert Dump(e) + rest == Varint(CONSTANT) + (Varint(c) + rest);
    case Variable =>
      ParseByOpcode(VARIABLE, rest);
  }

  /**
   Whatever bytes an expression was parsed from, its constants fit 256 bits, and
   its own dump is no longer than the bytes that were consumed.
   */
  lemma {:induction false} ParsedIsDumpable(s: seq<Byte>)
    requires Parse(s).Some?
    ensures Wordy(Parse(s).value.0)
    ensures |Dump(Parse(s).value.0)| + |Parse(s).value.1| <= |s|
    ensures Parse(s).value.1 == s[|s| - |Parse(s).value.1|..]
    decreases |s|
  {
    hide Varint, Decode;
    var opcode := Decode(U16, s);
    VarintIsShortest(U16, s);
    var t := s[opcode.used..];
    if 1 <= opcode.v <= 6 {
      var left := Parse(t);
      ParsedIsDumpable(t);
      ParsedIsDumpable(left.value.1);
    } else if opcode.v == CONSTANT {
      VarintIsShortest(U256, t);
    }
  }

  /** So a successful parse, even of padded varints, is a fixed point of dump-then-parse. */
  lemma ParseIsFixpoint(s: seq<Byte>, rest: seq<Byte>)
    requires Parse(s).Some?
    ensures Parse(Dump(Parse(s).value.0) + rest) == Some((Parse(s).value.0, rest))
  {
    ParsedIsDumpable(s);
    ParseDump(Parse(s).value.0, rest);
  }

  /** No dump is the beginning of another. */
  lemma DumpsArePrefixFree(e: Eq, f: Eq, s: seq<Byte>, t: seq<Byte>)
    requires Wordy(e) && Wordy(f) && Dump(e) + s == Dump(f) + t
    ensures e == f && s == t
  {
    ParseDump(e, s);
    ParseDump(f, t);
  }

  /** The opcodes: what each first byte makes of the expressions, the constant or the rest that follow it. */
  lemma OpcodesMean(a: Eq, b: Eq, c: nat, rest: seq<Byte>)
    requires Wordy(a) && Wordy(b) && c < LIMIT_256
    ensures var sides := Dump(a) + Dump(b) + rest;
      && Parse([1] + sides) == Some((Binary(Add, a, b), rest))
      && Parse([2] + sides) == Some((Binary(Sub, a, b), rest))
      && Parse([3] + sides) == Some((Binary(Mul, a, b), rest))
      && Parse([4] + sides) == Some((Binary(Div, a, b), rest))
      && Parse([5] + sides) == Some((Binary(Mod, a, b), rest))
      && Parse([6] + sides) == Some((Binary(Exp, a, b), rest))
    ensures Parse([7] + Varint(c) + rest) == Some((Constant(c), rest))
    ensures Parse([8] + rest) == Some((Variable, rest))
  {
    hide Varint, Decode, Parse, Dump;
    var sides := Dump(a) + (Dump(b) + rest);
    assert Dump(a) + Dump(b) + rest == sides && [7] + Varint(c) + rest == [7] + (Varint(c) + rest);
    ParseDump(a, Dump(b) + rest);
    ParseDump(b, rest);
    SmallVarints();
    ParseByOpcode(1, sides);
    ParseByOpcode(2, sides);
    ParseByOpcode(3, sides);
    ParseByOpcode(4, sides);
    ParseByOpcode(5, sides);
    ParseByOpcode(6, sides);
    ReadsBack(U256, c, rest);
    ParseByOpcode(7, Varint(c) + rest);
    ParseByOpcode(8, rest);
  }

  lemma SmallVarints()
    ensures forall k: nat :: k < 128 ==> Varint(k) == [k]
  {
  }

  /** Nothing is parsed from any other opcode, nor from no bytes at all. */
  lemma OtherOpcodesFail(c: nat, rest: seq<Byte>)
    requires c < 0x1_0000 && !(1 <= c <= 8)
    ensures Parse(Varint(c) + rest) == None && Parse([]) == None
  {
    hide Varint;
    ReadsBack(U16, c, rest);
  }

  /** `dump`, appending to a buffer. */
  method DumpTo(e: Eq, buffer: Buffer)
    modifies buffer
    ensures buffer.buf == old(buffer.buf) + Dump(e)
  {
    match e
    case Binary(op, l, r) =>
      buffer.PushVarint(OpCode(op));
      DumpTo(l, buffer);
      DumpTo(r, buffer);
    case Constant(c) =>
      buffer.PushVarint(CONSTANT);
      buffer.PushVarint(c);
    case Variable =>
      buffer.PushVarint(VARIABLE);
  }

  /** `Eq::parse`, consuming from a buffer. */
  method ParseFrom(buffer: Buffer) returns (e: Option<Eq>)
    modifies buffer
    ensures e.Some? <==> Parse(old(buffer.buf)).Some?
    ensures e.Some? ==> (e.value, buffer.buf) == Parse(old(buffer.buf)).value
    decreases |buffer.buf|
  {
    var opcode := buffer.PopVarint(U16);
    if !opcode.Value? {
      return None;
    }
    if 1 <= opcode.v <= 6 {
      var left := ParseFrom(buffer);
      if left.None? {
        return None;
      }
      var right := ParseFrom(buffer);
      if right.None? {
        return None;
      }
      e := Some(Binary(OpOf(opcode.v), left.value, right.value));
    } else if opcode.v == CONSTANT {
      var constant := buffer.PopVarint(U256);
      e := if constant.Value? then Some(Constant(constant.v)) else None;
    } else if opcode.v == VARIABLE {
      e := Some(Variable);
    } else {
      e := None;
    }
  }

  // ---------------------------------------------------------------- printing

  function Symbol(op: Op): char {
    match op
    case Add => '+'
    case Sub => '-'
    case Mul => '*'
    case Div => '/'
    case Mod => '%'
    case Exp => '^'
  }

  function Digit(d: nat): (c: char)
    requires d < 10
    ensures '0' <= c <= '9'
    ensures c as int == '0' as int + d
  {
    '0' + d as char
  }

  function Decimal(n: nat): (s: string)
    ensures s != [] && forall i :: 0 <= i < |s| ==> '0' <= s[i] <= '9'
  {
    if n < 10 then [Digit(n)] else Decimal(n / 10) + [Digit(n % 10)]
  }

  function Text(e: Eq): (s: string)
    ensures s != []
  {
    match e
    case Binary(op, l, r) => "(" + Text(l) + " " + [Symbol(op)] + " " + Text(r) + ")"
    case Constant(c) => Decimal(c)
    case Variable => "X"
  }

  /** The text of each form, and the number that a text of digits spells. */
  lemma TextsAre(a: Eq, b: Eq, n: nat)
    ensures Text(Binary(Add, a, b)) == "(" + Text(a) + " + " + Text(b) + ")"
    ensures Text(Binary(Sub, a, b)) == "(" + Text(a) + " - " + Text(b) + ")"
    ensures Text(Binary(Mul, a, b)) == "(" + Text(a) + " * " + Text(b) + ")"
    ensures Text(Binary(Div, a, b)) == "(" + Text(a) + " / " + Text(b) + ")"
    ensures Text(Binary(Mod, a, b)) == "(" + Text(a) + " % " + Text(b) + ")"
    ensures Text(Binary(Exp, a, b)) == "(" + Text(a) + " ^ " + Text(b) + ")"
    ensures Text(Variable) == "X"
    ensures SpelledDecimal(Text(Constant(n))) == n && (Text(Constant(n))[0] == '0' ==> n == 0)
  {
    hide Text;
    TextOfBinary(Binary(Add, a, b));
    TextOfBinary(Binary(Sub, a, b));
    TextOfBinary(Binary(Mul, a, b));
    TextOfBinary(Binary(Div, a, b));
    TextOfBinary(Binary(Mod, a, b));
    TextOfBinary(Binary(Exp, a, b));
    ConstantText(n);
    DecimalSpells(n);
    TextOfVariable();
  }

  lemma TextOfVariable()
    ensures Text(Variable) == "X"
  {
  }

  /** The number that decimal digits spell, the most significant first. */
  function SpelledDecimal(s: string): int {
    if s == [] then 0 else 10 * SpelledDecimal(s[..|s| - 1]) + (s[|s| - 1] as int - '0' as int)
  }

  lemma {:induction false} DecimalSpells(n: nat)
    ensures SpelledDecimal(Decimal(n)) == n && (Decimal(n)[0] == '0' ==> n == 0)
  {
    if n >= 10 {
      DecimalSpells(n / 10);
      assert Decimal(n)[..|Decimal(n)| - 1] == Decimal(n / 10);
    }
  }

  predicate Numeric(s: string) {
    forall i :: 0 <= i < |s| ==> '0' <= s[i] <= '9'
  }

  /** What may follow an expression inside a text: nothing that continues a number. */
  predicate Stops(s: string) {
    s == [] || !('0' <= s[0] <= '9')
  }

  lemma {:induction false} DecimalInjective(m: nat, n: nat)
    requires Decimal(m) == Decimal(n)
    ensures m == n
  {
    var (s, t) := (Decimal(m), Decimal(n));
    assert s[|s| - 1] == Digit(m % 10) && t[|t| - 1] == Digit(n % 10);
    if m >= 10 {
      assert s[..|s| - 1] == Decimal(m / 10);
      assert t[..|t| - 1] == Decimal(n / 10);
      DecimalInjective(m / 10, n / 10);
    }
  }

  lemma NumbersEndOnce(a: string, s: string, b: string, t: string)
    requires Numeric(a) && Numeric(b) && Stops(s) && Stops(t) && a + s == b + t
    ensures a == b && s == t
  {
    var u := a + s;
    assert u[..|a|] == a && u[..|b|] == b && u[|a|..] == s && u[|b|..] == t;
  }

  /** The first character of a text tells which of the three forms it is. */
  lemma FirstCharacter(e: Eq, s: string)
    ensures Text(e) + s != []
    ensures (Text(e) + s)[0] == '(' <==> e.Binary?
    ensures (Text(e) + s)[0] == 'X' <==> e.Variable?
  {
    if e.Constant? {
      assert (Text(e) + s)[0] == Decimal(e.value)[0];
    }
  }

  function AfterLeft(e: Eq, s: string): string
    requires e.Binary?
  {
    " " + [Symbol(e.op)] + " " + (Text(e.right) + (")" + s))
  }

  lemma BinaryText(e: Eq, s: string)
    requires e.Binary?
    ensures (Text(e) + s)[1..] == Text(e.left) + AfterLeft(e, s)
    ensures AfterLeft(e, s)[0] == ' ' && AfterLeft(e, s)[1] == Symbol(e.op)
    ensures AfterLeft(e, s)[3..] == Text(e.right) + (")" + s)
    ensures (")" + s)[1..] == s
  {
    hide Text;
    var (l, r) := (Text(e.left), Text(e.right));
    assert Text(e) == "(" + l + " " + [Symbol(e.op)] + " " + r + ")" by {
      TextOfBinary(e);
    }
    assert Text(e) + s == "(" + (l + AfterLeft(e, s));
  }

  lemma TextOfBinary(e: Eq)
    requires e.Binary?
    ensures Text(e) == "(" + Text(e.left) + " " + [Symbol(e.op)] + " " + Text(e.right) + ")"
  {
  }

  lemma VariableText(s: string)
    ensures (Text(Variable) + s)[1..] == s
  {
  }

  lemma ConstantText(c: nat)
    ensures Text(Constant(c)) == Decimal(c)
  {
  }

  /** Texts are uniquely readable, whatever follows them. */
  lemma {:induction false} ReadsOneWay(e: Eq, s: string, f: Eq, t: string)
    requires Text(e) + s == Text(f) + t && Stops(s) && Stops(t)
    ensures e == f && s == t
  {
    hide Text;
    FirstCharacter(e, s);
    FirstCharacter(f, t);
    match e
    case Variable =>
      VariableText(s);
      VariableText(t);
    case Constant(c) =>
      ConstantText(c);
      ConstantText(f.value);
      NumbersEndOnce(Text(e), s, Text(f), t);
      DecimalInjective(c, f.value);
    case Binary(op, l, r) =>
      BinaryText(e, s);
      BinaryText(f, t);
      ReadsOneWay(l, AfterLeft(e, s), f.left, AfterLeft(f, t));
      ReadsOneWay(r, ")" + s, f.right, ")" + t);
  }

  /** Two expressions with the same text are the same tree. */
  lemma TextInjective(e: Eq, f: Eq)
    requires Text(e) == Text(f)
    ensures e == f
  {
    assert Text(e) + "" == Text(e) && Text(f) + "" == Text(f);
    ReadsOneWay(e, "", f, "");
  }
}
