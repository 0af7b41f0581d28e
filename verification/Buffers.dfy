/**
 The byte buffer of src/util/buffer.h and its base-128 variable-length integers
 (the unsigned LEB128 form of section 7.6 of DWARF Version 5) at five widths.
 */
module Buffers {
  import opened Wrappers

  type Byte = x: nat | x < 256

  /** The integer types that travel as varints. */
  datatype Width = U8 | U16 | U32 | U64 | U256

  const LIMIT_256: nat := 0x1_0000_0000_0000_0000_0000_0000_0000_0000_0000_0000_0000_0000_0000_0000_0000_0000

  /** One more than the largest value of a width. */
  function Limit(w: Width): (n: nat)
    ensures 256 <= n <= LIMIT_256
  {
    match w
    case U8 => 0x100
    case U16 => 0x1_0000
    case U32 => 0x1_0000_0000
    case U64 => 0x1_0000_0000_0000_0000
    case U256 => LIMIT_256
  }

  /**
   The shift of the group at `idx` is defined in C++17.  Up to U16 the group is promoted to a signed
   32-bit integer, whose fifth group must still fit 32 bits; wider types shift modulo their width, by less
   than it; the checked 256-bit type shifts by any amount.
   */
  predicate Shiftable(w: Width, b: Byte, idx: nat) {
    match w
    case U8 | U16 => idx < 4 || (idx == 4 && b % 128 < 16)
    case U32 => idx < 5
    case U64 => idx < 10
    case U256 => true
  }

  ghost predicate AllShiftable(w: Width, s: seq<Byte>, i: nat, k: nat) {
    forall j :: i <= j < k <= |s| ==> Shiftable(w, s[j], j)
  }

  // ---------------------------------------------------------------- powers of 128

  function Pow128(k: nat): (p: nat)
    ensures p > 0
  {
    if k == 0 then 1 else 128 * Pow128(k - 1)
  }

  lemma {:induction false} Pow128Grows(i: nat, j: nat)
    requires i <= j
    ensures Pow128(i) <= Pow128(j)
  {
    if i < j {
      Pow128Grows(i, j - 1);
    }
  }

  lemma PowersOf128()
    ensures Pow128(4) == 0x1000_0000
    ensures Pow128(5) == 0x8_0000_0000
    ensures Pow128(9) == 0x8000_0000_0000_0000
    ensures Pow128(10) == 0x40_0000_0000_0000_0000
  {
    assert Pow128(3) == 0x20_0000;
    assert Pow128(7) == 0x2_0000_0000_0000;
  }

  /** A value that needs group `k` is below the limit only where that group and those before it can be shifted. */
  lemma GroupFits(w: Width, k: nat, b: Byte, idx: nat)
    requires Pow128(k) < Limit(w) && idx <= k
    ensures Shiftable(w, b, idx)
  {
    hide Pow128;
    PowersOf128();
    if k >= 4 {
      Pow128Grows(4, k);
    }
    if k >= 5 {
      Pow128Grows(5, k);
    }
    if k >= 10 {
      Pow128Grows(10, k);
    }
  }

  // ---------------------------------------------------------------- encoding

  function Varint(v: nat): (s: seq<Byte>)
    ensures s != []
  {
    if v < 128 then [v] else [v % 128 + 128] + Varint(v / 128)
  }

  // ---------------------------------------------------------------- decoding

  datatype Scan =
    | Value(v: nat, used: nat)
    | Unfinished   // no final byte: "Invalid varint decode"
    | Overflow     // a group outside 256 bits: the checked shift throws
    | Undefined    // a shift C++ does not define

  function Part(b: Byte, idx: nat): nat {
    (b % 128) * Pow128(idx)
  }

  /** The loop of `varint_decode` from byte `idx` on, `acc` being the value so far. */
  function ScanFrom(w: Width, s: seq<Byte>, idx: nat, acc: nat): (r: Scan)
    requires idx <= |s|
    ensures r.Value? ==> idx < r.used <= |s|
    decreases |s| - idx
  {
    if idx == |s| then Unfinished
    else if !Shiftable(w, s[idx], idx) then Undefined
    else if w == U256 && Part(s[idx], idx) >= LIMIT_256 then Overflow
    else
      var next := (acc + Part(s[idx], idx)) % Limit(w);
      if s[idx] < 128 then Value(next, idx + 1) else ScanFrom(w, s, idx + 1, next)
  }

  function Decode(w: Width, s: seq<Byte>): (r: Scan)
    ensures r.Value? ==> 0 < r.used <= |s|
  {
    ScanFrom(w, s, 0, 0)
  }

  // ---------------------------------------------------------------- what decoding means

  /** The little-endian base-128 number that the low seven bits of the bytes spell. */
  function Spelled(s: seq<Byte>): nat {
    if s == [] then 0 else Spelled(s[..|s| - 1]) + Part(s[|s| - 1], |s| - 1)
  }

  /** The first `k` bytes are one varint: all but the last carry the continuation bit. */
  predicate Terminated(s: seq<Byte>, k: nat) {
    0 < k <= |s| && s[k - 1] < 128 && forall i :: 0 <= i < k - 1 ==> s[i] >= 128
  }

  lemma PartBelow(b: Byte, k: nat)
    ensures Part(b, k) + Pow128(k) <= Pow128(k + 1)
  {
    TimesUpTo(b % 128, 127, Pow128(k));
  }

  lemma TimesUpTo(a: nat, b: nat, p: nat)
    requires a <= b
    ensures a * p <= b * p
  {
  }

  lemma {:induction false} SpelledBelow(s: seq<Byte>)
    ensures Spelled(s) < Pow128(|s|)
  {
    if s != [] {
      SpelledBelow(s[..|s| - 1]);
      PartBelow(s[|s| - 1], |s| - 1);
    }
  }

  lemma SpelledNext(s: seq<Byte>, k: nat)
    requires k < |s|
    ensures Spelled(s[..k + 1]) == Spelled(s[..k]) + Part(s[k], k)
  {
    assert s[..k + 1][..k] == s[..k];
  }

  lemma {:induction false} SpelledGrows(s: seq<Byte>, i: nat, k: nat)
    requires i <= k <= |s|
    ensures Spelled(s[..i]) <= Spelled(s[..k])
  {
    if i < k {
      SpelledGrows(s, i, k - 1);
      SpelledNext(s, k - 1);
    }
  }

  lemma {:induction false} ScanMeans(w: Width, s: seq<Byte>, idx: nat, acc: nat, k: nat)
    requires idx < k && Terminated(s, k)
    requires acc == Spelled(s[..idx]) % Limit(w) && (w == U256 ==> Spelled(s[..idx]) < LIMIT_256)
    ensures !AllShiftable(w, s, idx, k) ==> ScanFrom(w, s, idx, acc).Undefined?
    ensures AllShiftable(w, s, idx, k) && (w == U256 ==> Spelled(s[..k]) < LIMIT_256)
      ==> ScanFrom(w, s, idx, acc) == Value(Spelled(s[..k]) % Limit(w), k)
    ensures w == U256 && Spelled(s[..k]) >= LIMIT_256 ==> ScanFrom(w, s, idx, acc).Overflow?
    decreases k - idx
  {
    hide Spelled, Limit, Part;
    SpelledNext(s, idx);
    SpelledGrows(s, idx + 1, k);
    LimitOf256(w);
    var limit, before, part := Limit(w), Spelled(s[..idx]), Part(s[idx], idx);
    SumMod(before, part, limit);
    if Shiftable(w, s[idx], idx) && !(w == U256 && part >= LIMIT_256) {
      if w == U256 {
        NoCarry(s, idx);
      }
      if idx + 1 < k {
        ScanMeans(w, s, idx + 1, (acc + part) % limit, k);
      }
    }
  }

  lemma {:induction false} Pow128Adds(i: nat, j: nat)
    ensures Pow128(i + j) == Pow128(i) * Pow128(j)
  {
    if i > 0 {
      Pow128Adds(i - 1, j);
      assert 128 * (Pow128(i - 1) * Pow128(j)) == (128 * Pow128(i - 1)) * Pow128(j);
    }
  }

  /** 256 bits are 36 whole groups and four bits more. */
  lemma GroupsOf256()
    ensures Pow128(36) * 16 == LIMIT_256
  {
    hide Pow128;
    PowersOf128();
    Pow128Adds(9, 9);
    Pow128Adds(18, 18);
  }

  /** 256 bits split at every whole group that lies below them. */
  lemma SplitOf256(k: nat)
    requires k <= 36
    ensures Pow128(k) * (Pow128(36 - k) * 16) == LIMIT_256
  {
    GroupsOf256();
    Pow128Adds(k, 36 - k);
    TimesAssociates(Pow128(k), Pow128(36 - k), 16);
  }

  lemma TimesAssociates(a: int, b: int, c: int)
    ensures a * (b * c) == (a * b) * c
  {
  }

  /** A group that fits 256 bits still fits on top of the groups below it. */
  lemma NoCarry(s: seq<Byte>, idx: nat)
    requires idx < |s| && Part(s[idx], idx) < LIMIT_256 && Spelled(s[..idx]) < LIMIT_256
    ensures Spelled(s[..idx]) + Part(s[idx], idx) < LIMIT_256
  {
    hide Spelled, Limit;
    var d, p := s[idx] % 128, Pow128(idx);
    SpelledBelow(s[..idx]);
    if d == 0 {
      assert Part(s[idx], idx) == 0;
    } else {
      TimesUpTo(1, d, p);
      if idx > 36 {
        GroupsOf256();
        Pow128Grows(37, idx);
        assert false;
      }
      SplitOf256(idx);
      RoomForOne(d, p, Pow128(36 - idx) * 16);
    }
  }

  lemma RoomForOne(d: nat, p: nat, m: nat)
    requires d * p < p * m
    ensures d * p + p <= p * m
  {
    if d < m {
      TimesUpTo(d + 1, m, p);
    } else {
      TimesUpTo(m, d, p);
    }
  }

  // ---------------------------------------------------------------- remainders

  lemma QuotientUnique(x: int, k: int, r: int, m: int)
    requires 0 <= r < m && x == k * m + r
    ensures x % m == r
  {
    var q, t := x / m, x % m;
    assert x == q * m + t;
    SameQuotient(q, t, k, r, m);
  }

  lemma SameQuotient(q: int, t: int, k: int, r: int, m: int)
    requires 0 <= r < m && 0 <= t < m && q * m + t == k * m + r
    ensures t == r
  {
    if q > k {
      assert (q - k) * m == q * m - k * m;
      TimesUpTo(1, q - k, m);
    } else if q < k {
      assert (k - q) * m == k * m - q * m;
      TimesUpTo(1, k - q, m);
    }
  }

  lemma SumMod(a: nat, b: nat, m: nat)
    requires m > 0
    ensures (a % m + b) % m == (a + b) % m
  {
    var y := a % m + b;
    var k := a / m + y / m;
    assert a + b == k * m + y % m;
    QuotientUnique(a + b, k, y % m, m);
  }

  // ---------------------------------------------------------------- encoding against decoding

  lemma {:induction false} SpelledFront(b: Byte, s: seq<Byte>)
    ensures Spelled([b] + s) == b % 128 + 128 * Spelled(s)
  {
    if s != [] {
      var n := |s| - 1;
      assert ([b] + s)[..n + 1] == [b] + s[..n];
      SpelledFront(b, s[..n]);
      assert Part(s[n], n + 1) == 128 * Part(s[n], n);
    }
  }

  lemma {:induction false} VarintSpells(v: nat)
    ensures Spelled(Varint(v)) == v && Terminated(Varint(v), |Varint(v)|)
  {
    hide Spelled, Terminated;
    if v < 128 {
      OneByte(v);
    } else {
      VarintSpells(v / 128);
      SpelledFront(v % 128 + 128, Varint(v / 128));
      TerminatedFront(v % 128 + 128, Varint(v / 128));
    }
  }

  lemma OneByte(b: Byte)
    requires b < 128
    ensures Spelled([b]) == b && Terminated([b], 1)
  {
    assert [b][..0] == [];
  }

  lemma TerminatedFront(b: Byte, s: seq<Byte>)
    requires b >= 128 && Terminated(s, |s|)
    ensures Terminated([b] + s, |s| + 1)
  {
  }

  lemma {:induction false} VarintLength(v: nat)
    ensures |Varint(v)| > 1 ==> Pow128(|Varint(v)| - 1) <= v
    ensures v < Pow128(|Varint(v)|)
  {
    if v >= 128 {
      VarintLength(v / 128);
    }
  }

  lemma TerminatedIsLong(s: seq<Byte>, k: nat)
    requires Terminated(s, k)
    ensures 0 < k <= |s|
  {
  }

  /** Decoding a terminated varint gives its low bits, unless a shift is undefined or, at 256 bits, the value does not fit. */
  lemma DecodeMeans(w: Width, s: seq<Byte>, k: nat)
    requires Terminated(s, k)
    ensures w != U256 ==>
              Decode(w, s) == if AllShiftable(w, s, 0, k) then Value(Spelled(s[..k]) % Limit(w), k) else Undefined
    ensures w == U256 ==> Decode(w, s) == if Spelled(s[..k]) < LIMIT_256 then Value(Spelled(s[..k]), k) else Overflow
  {
    hide ScanFrom, Spelled, Terminated;
    EmptySpells(s);
    LimitOf256(w);
    TerminatedIsLong(s, k);
    ScanMeans(w, s, 0, 0, k);
  }

  /**
   Where C++ defines the decoding of a varint of `k` bytes: up to U16 through five bytes, of which the fifth
   must fit four bits, at U32 through five, at U64 through ten, at 256 bits always.
   */
  lemma UndefinedExactly(w: Width, s: seq<Byte>, k: nat)
    requires Terminated(s, k)
    ensures Decode(w, s) == Undefined <==>
            match w
            case U8 | U16 => k > 5 || (k == 5 && s[4] % 128 >= 16)
            case U32 => k > 5
            case U64 => k > 10
            case U256 => false
  {
    hide Decode, Spelled, Limit;
    DecodeMeans(w, s, k);
    if k > 5 {
      assert !Shiftable(U8, s[5], 5) && !Shiftable(U16, s[5], 5) && !Shiftable(U32, s[5], 5);
    }
    if k == 5 && s[4] % 128 >= 16 {
      assert !Shiftable(U8, s[4], 4) && !Shiftable(U16, s[4], 4);
    }
    if k > 10 {
      assert !Shiftable(U64, s[10], 10);
    }
  }

  /** Byte `i` of a varint holds digit `i` of the value to base 128, and every byte but the last carries the continuation bit. */
  lemma {:induction false} VarintDigits(v: nat, i: nat)
    requires i < |Varint(v)|
    ensures Varint(v)[i] == v / Pow128(i) % 128 + if i + 1 < |Varint(v)| then 128 else 0
    ensures v < Pow128(|Varint(v)|) && (|Varint(v)| > 1 ==> v >= Pow128(|Varint(v)| - 1))
  {
    var n := |Varint(v)|;
    if v >= 128 {
      VarintDigits(v / 128, if i > 0 then i - 1 else 0);
      if i > 0 {
        QuotientTwice(v, 128, Pow128(i - 1));
      }
    }
  }

  lemma QuotientTwice(x: nat, a: nat, b: nat)
    requires a > 0 && b > 0
    ensures x / (a * b) == x / a / b
  {
    var (q, r) := (x / a, x % a);
    var (k, m) := (q / b, q % b);
    assert x == a * q + r && q == b * k + m;
    TimesUpTo(m, b - 1, a);
    assert x == k * (a * b) + (a * m + r);
    assert 0 <= a * m + r < a * b;
    QuotientOf(x, k, a * m + r, a * b);
  }

  lemma QuotientOf(x: int, k: int, r: int, m: int)
    requires 0 <= r < m && x == k * m + r
    ensures x / m == k
  {
    QuotientUnique(x, k, r, m);
    var q := x / m;
    assert x == q * m + x % m;
    if q > k {
      TimesUpTo(1, q - k, m);
    } else if q < k {
      TimesUpTo(1, k - q, m);
    }
  }

  lemma PrefixTerminated(s: seq<Byte>, rest: seq<Byte>)
    requires Terminated(s, |s|)
    ensures Terminated(s + rest, |s|) && (s + rest)[..|s|] == s
  {
  }

  /** What `varint_encode` writes, `varint_decode` reads back at the same width, up to the first byte of what follows. */
  lemma VarintRoundTrip(w: Width, v: nat, rest: seq<Byte>)
    requires v < Limit(w)
    ensures Decode(w, Varint(v) + rest) == Value(v, |Varint(v)|)
  {
    hide Varint, Limit, Spelled, Terminated, Decode, Pow128;
    var s, k := Varint(v) + rest, |Varint(v)|;
    VarintSpells(v);
    VarintLength(v);
    PrefixTerminated(Varint(v), rest);
    forall j | 0 <= j < k
      ensures Shiftable(w, s[j], j)
    {
      if k > 1 {
        GroupFits(w, k - 1, s[j], j);
      } else {
        FirstGroup(w, s[0]);
      }
    }
    DecodeMeans(w, s, k);
    LimitOf256(w);
    QuotientUnique(v, 0, v, Limit(w));
  }

  lemma LimitOf256(w: Width)
    ensures w == U256 ==> Limit(w) == LIMIT_256
  {
  }

  lemma FirstGroup(w: Width, b: Byte)
    ensures Shiftable(w, b, 0)
  {
  }

  lemma EmptySpells(s: seq<Byte>)
    ensures Spelled(s[..0]) == 0
  {
  }

  /** Without a final byte nothing is decoded. */
  lemma {:induction false} EndlessFails(w: Width, s: seq<Byte>, idx: nat, acc: nat)
    requires idx <= |s| && forall i :: idx <= i < |s| ==> s[i] >= 128
    ensures !ScanFrom(w, s, idx, acc).Value?
    decreases |s| - idx
  {
    if idx < |s| {
      EndlessFails(w, s, idx + 1, (acc + Part(s[idx], idx)) % Limit(w));
    }
  }

  lemma {:induction false} ValueIsTerminated(w: Width, s: seq<Byte>, idx: nat, acc: nat)
    requires idx <= |s| && ScanFrom(w, s, idx, acc).Value?
    requires forall i :: 0 <= i < idx ==> s[i] >= 128
    ensures Terminated(s, ScanFrom(w, s, idx, acc).used)
    decreases |s| - idx
  {
    if s[idx] >= 128 {
      ValueIsTerminated(w, s, idx + 1, (acc + Part(s[idx], idx)) % Limit(w));
    }
  }

  lemma {:induction false} VarintFits(v: nat, k: nat)
    requires k > 0 && v < Pow128(k)
    ensures |Varint(v)| <= k
  {
    if v >= 128 {
      assert k > 1;
      VarintFits(v / 128, k - 1);
    }
  }

  /** No encoding of a value is shorter than the one that is written. */
  lemma VarintIsShortest(w: Width, s: seq<Byte>)
    requires Decode(w, s).Value?
    ensures Decode(w, s).v < Limit(w) && |Varint(Decode(w, s).v)| <= Decode(w, s).used
  {
    hide Varint, Limit, Spelled;
    var k := Decode(w, s).used;
    ValueIsTerminated(w, s, 0, 0);
    DecodeMeans(w, s, k);
    LimitOf256(w);
    SpelledBelow(s[..k]);
    ModAtMost(Spelled(s[..k]), Limit(w));
    VarintFits(Decode(w, s).v, k);
  }

  lemma ModAtMost(a: nat, m: nat)
    requires m > 0
    ensures a % m <= a
  {
    if a >= m {
      assert a % m < m;
    }
  }

  // ---------------------------------------------------------------- the buffer

  class Buffer {
    var buf: seq<Byte>

    constructor (data: seq<Byte>)
      ensures buf == data
    {
      buf := data;
    }

    method Push(b: Byte)
      modifies this
      ensures buf == old(buf) + [b]
    {
      buf := buf + [b];
    }

    method Append(data: seq<Byte>)
      modifies this
      ensures buf == old(buf) + data
    {
      buf := buf + data;
    }

    method Consume(length: nat)
      requires length <= |buf|
      modifies this
      ensures buf == old(buf)[length..]
    {
      buf := buf[length..];
    }

    /** Reading a fixed number of raw bytes: nothing is consumed when there are too few. */
    method Take(length: nat) returns (data: Option<seq<Byte>>)
      modifies this
      ensures data == if length <= |old(buf)| then Some(old(buf)[..length]) else None
      ensures buf == if length <= |old(buf)| then old(buf)[length..] else old(buf)
    {
      if |buf| < length {
        return None;
      }
      data := Some(buf[..length]);
      Consume(length);
    }

    /** `varint_encode`. */
    method PushVarint(value: nat)
      modifies this
      ensures buf == old(buf) + Varint(value)
    {
      var val := value;
      while true
        invariant buf + Varint(val) == old(buf) + Varint(value)
        decreases val
      {
        var toWrite := val % 128;
        val := val / 128;
        if val != 0 {
          Push(toWrite + 128);
        } else {
          Push(toWrite);
          break;
        }
      }
    }

    /** `varint_decode`: the bytes are consumed only when a final byte was found. */
    method PopVarint(w: Width) returns (r: Scan)
      modifies this
      ensures r == Decode(w, old(buf))
      ensures buf == if r.Value? then old(buf)[r.used..] else old(buf)
    {
      var val: nat := 0;
      var idx := 0;
      while idx < |buf|
        invariant idx <= |buf| && buf == old(buf)
        invariant ScanFrom(w, buf, idx, val) == Decode(w, buf)
      {
        var b := buf[idx];
        if !Shiftable(w, b, idx) {
          return Undefined;
        }
        var part := Part(b, idx);
        if w == U256 && part >= LIMIT_256 {
          return Overflow;
        }
        val := (val + part) % Limit(w);
        if b < 128 {
          Consume(1 + idx);
          return Value(val, 1 + idx);
        }
        idx := idx + 1;
      }
      r := Unfinished;
    }
  }
}
