/**
 * The Java library conversions between numbers and text that the assembler,
 * the loader and the memory display use: `Integer.toBinaryString`,
 * zero-padding through `String.format("%Ns", ...).replace(' ', '0')`,
 * `Integer.parseInt`, `Long.parseLong(s, 2)`, the `(short)` cast,
 * `String.valueOf(int)`, `String.format("%04X", ...)` and
 * `String.format("%04d", ...)`.  Each rendering is paired with the reading
 * that inverts it.
 */
module JavaNumbers {
  import opened Wrappers

  /** Java `int`. */
  type Int32 = x: int | -0x8000_0000 <= x < 0x8000_0000

  /** Java `short`. */
  type Int16 = x: int | -0x8000 <= x < 0x8000

  function Pow2(n: nat): (r: nat)
    ensures r >= 1
  {
    if n == 0 then 1 else 2 * Pow2(n - 1)
  }

  lemma {:induction false} Pow2Monotone(m: nat, n: nat)
    requires m <= n
    ensures Pow2(m) <= Pow2(n)
  {
    if m < n {
      Pow2Monotone(m, n - 1);
    }
  }

  lemma {:induction false} Pow2Add(a: nat, b: nat)
    ensures Pow2(a + b) == Pow2(a) * Pow2(b)
  {
    if b > 0 {
      Pow2Add(a, b - 1);
    }
  }

  lemma {:induction false} Pow2Values()
    ensures Pow2(4) == 16 && Pow2(8) == 256 && Pow2(12) == 4096 && Pow2(16) == 65536
    ensures Pow2(31) == 0x8000_0000 && Pow2(32) == 0x1_0000_0000
  {
    assert Pow2(4) == 16;
    Pow2Add(4, 4);
    Pow2Add(8, 4);
    Pow2Add(8, 8);
    Pow2Add(16, 8);
    Pow2Add(24, 4);
    Pow2Add(28, 3);
    Pow2Add(31, 1);
  }

  lemma {:induction false} MulAtLeast(k: int, m: int)
    requires k >= 1 && m > 0
    ensures k * m >= m
  {
    assert k * m == (k - 1) * m + m;
  }

  /** `x % m == r` whenever `x == q * m + r` with `0 <= r < m`. */
  lemma {:induction false} ModOfSum(x: int, q: int, m: int, r: int)
    requires m > 0 && 0 <= r < m && x == q * m + r
    ensures x % m == r && x / m == q
  {
    var q', r' := x / m, x % m;
    assert x == q' * m + r';
    var d := q - q';
    assert d * m == r' - r by {
      assert q * m - q' * m == (q - q') * m;
    }
    if d > 0 {
      MulAtLeast(d, m);
    } else if d < 0 {
      MulAtLeast(-d, m);
    }
  }

  // ---------------------------------------------------------------- binary

  predicate IsBinary(s: string) {
    forall i :: 0 <= i < |s| ==> s[i] == '0' || s[i] == '1'
  }

  function BitChar(b: nat): char
    requires b < 2
  {
    if b == 0 then '0' else '1'
  }

  function BitOf(c: char): nat {
    if c == '1' then 1 else 0
  }

  /** The number a string of binary digits denotes, most significant digit first. */
  function BinValue(s: string): nat {
    if s == [] then 0 else 2 * BinValue(s[..|s| - 1]) + BitOf(s[|s| - 1])
  }

  lemma {:induction false} BinValueBound(s: string)
    ensures BinValue(s) < Pow2(|s|)
  {
    if s != [] {
      BinValueBound(s[..|s| - 1]);
    }
  }

  /** Reading a concatenation: the digits of `s` are shifted left by the length of `t`. */
  lemma {:induction false} BinValueConcat(s: string, t: string)
    ensures BinValue(s + t) == BinValue(s) * Pow2(|t|) + BinValue(t)
  {
    if t == [] {
      assert s + t == s;
    } else {
      var t' := t[..|t| - 1];
      assert (s + t)[..|s + t| - 1] == s + t';
      BinValueConcat(s, t');
      assert BinValue(s + t) == 2 * BinValue(s + t') + BitOf(t[|t| - 1]);
      assert BinValue(t) == 2 * BinValue(t') + BitOf(t[|t| - 1]);
      assert Pow2(|t|) == 2 * Pow2(|t'|);
      ShiftOneDigit(BinValue(s), Pow2(|t'|), BinValue(t'), BitOf(t[|t| - 1]));
    }
  }

  /** One more digit below `a * p + b` doubles the shift. */
  lemma ShiftOneDigit(a: int, p: int, b: int, c: int)
    ensures 2 * (a * p + b) + c == a * (2 * p) + (2 * b + c)
  {
  }

  /** The low `w` digits of a binary string denote its value modulo 2^w. */
  lemma {:induction false} SuffixValue(s: string, w: nat)
    requires w <= |s|
    ensures BinValue(s[|s| - w..]) == BinValue(s) % Pow2(w)
    ensures BinValue(s[..|s| - w]) == BinValue(s) / Pow2(w)
  {
    var pre, suf := s[..|s| - w], s[|s| - w..];
    assert s == pre + suf;
    BinValueConcat(pre, suf);
    BinValueBound(suf);
    ModOfSum(BinValue(s), BinValue(pre), Pow2(w), BinValue(suf));
  }

  /** The value of four digits, digit by digit. */
  lemma {:induction false} BinValue4(s: string)
    requires |s| == 4
    ensures BinValue(s) == 8 * BitOf(s[0]) + 4 * BitOf(s[1]) + 2 * BitOf(s[2]) + BitOf(s[3])
  {
    assert s[..3][..2] == s[..2] && s[..2][..1] == s[..1] && s[..1][..0] == [];
    assert BinValue(s) == 2 * BinValue(s[..3]) + BitOf(s[3]);
    assert BinValue(s[..3]) == 2 * BinValue(s[..2]) + BitOf(s[2]);
    assert BinValue(s[..2]) == 2 * BinValue(s[..1]) + BitOf(s[1]);
    assert BinValue(s[..1]) == BitOf(s[0]);
  }

  /** The value of eight digits: the high four times 16 plus the low four. */
  lemma {:induction false} BinValue8(s: string)
    requires |s| == 8
    ensures BinValue(s) == 16 * BinValue(s[..4]) + BinValue(s[4..])
  {
    Pow2Values();
    BinValueConcat(s[..4], s[4..]);
    assert s == s[..4] + s[4..];
  }

  /** `n` written with exactly `w` binary digits, zero-padded on the left. */
  function Bits(n: nat, w: nat): (r: string)
    requires n < Pow2(w)
    ensures |r| == w && IsBinary(r) && BinValue(r) == n
  {
    if w == 0 then ""
    else
      var r := Bits(n / 2, w - 1) + [BitChar(n % 2)];
      assert r[..|r| - 1] == Bits(n / 2, w - 1);
      r
  }

  /** A binary string is the `|s|`-digit rendering of its own value. */
  lemma {:induction false} BitsOfBinValue(s: string)
    requires IsBinary(s)
    ensures BinValue(s) < Pow2(|s|) && Bits(BinValue(s), |s|) == s
  {
    BinValueBound(s);
    if s != [] {
      var s' := s[..|s| - 1];
      assert IsBinary(s');
      BitsOfBinValue(s');
      var v := BinValue(s);
      assert v / 2 == BinValue(s') && v % 2 == BitOf(s[|s| - 1]);
      assert s == s' + [s[|s| - 1]];
    }
  }

  /** The last `w` digits of a binary string are the `w`-digit rendering of its value modulo 2^w. */
  lemma {:induction false} SuffixBits(s: string, w: nat)
    requires IsBinary(s) && w <= |s|
    ensures BinValue(s) % Pow2(w) < Pow2(w) && s[|s| - w..] == Bits(BinValue(s) % Pow2(w), w)
  {
    var tail := s[|s| - w..];
    SuffixValue(s, w);
    assert IsBinary(tail) by {
      forall i | 0 <= i < |tail|
        ensures tail[i] == '0' || tail[i] == '1'
      {
        assert tail[i] == s[|s| - w + i];
      }
    }
    BitsOfBinValue(tail);
  }

  /** Two binary strings of one length are equal when they denote the same number. */
  lemma {:induction false} BinaryInjective(s: string, t: string)
    requires IsBinary(s) && IsBinary(t) && |s| == |t| && BinValue(s) == BinValue(t)
    ensures s == t
  {
    BitsOfBinValue(s);
    BitsOfBinValue(t);
  }

  /** `Integer.toBinaryString` of a non-negative number: the shortest binary rendering ("0" for zero). */
  function MinBinary(u: nat): (r: string)
    ensures 1 <= |r| && IsBinary(r) && BinValue(r) == u
    ensures u >= 2 ==> r[0] == '1'
  {
    if u < 2 then [BitChar(u)]
    else
      var r := MinBinary(u / 2) + [BitChar(u % 2)];
      assert r[..|r| - 1] == MinBinary(u / 2);
      r
  }

  /** The shortest rendering fits in `w` digits exactly when the number is below 2^w. */
  lemma {:induction false} MinBinaryLength(u: nat, w: nat)
    requires w >= 1
    ensures |MinBinary(u)| <= w <==> u < Pow2(w)
  {
    var r := MinBinary(u);
    BinValueBound(r);
    if |r| <= w {
      Pow2Monotone(|r|, w);
    } else {
      assert u >= 2;
      LeadingOneValue(r);
      Pow2Monotone(w, |r| - 1);
    }
  }

  /** A binary string with a leading 1 denotes at least 2^(length - 1). */
  lemma {:induction false} LeadingOneValue(r: string)
    requires |r| >= 1 && r[0] == '1'
    ensures BinValue(r) >= Pow2(|r| - 1)
  {
    assert r == [r[0]] + r[1..];
    BinValueConcat([r[0]], r[1..]);
    assert BinValue([r[0]]) == 1 by {
      assert [r[0]][..0] == [];
    }
  }

  /** `Integer.toBinaryString(x)`: the shortest binary rendering of `x` read as an unsigned 32-bit number. */
  function ToBinaryString(x: Int32): string {
    MinBinary(if x < 0 then x + 0x1_0000_0000 else x)
  }

  /** A negative `int` always renders with all 32 digits. */
  lemma {:induction false} NegativeBinaryStringLength(x: Int32)
    requires x < 0
    ensures |ToBinaryString(x)| == 32
  {
    Pow2Values();
    MinBinaryLength(x + 0x1_0000_0000, 32);
    MinBinaryLength(x + 0x1_0000_0000, 31);
  }

  /** `String.format("%" + w + "s", s).replace(' ', '0')` for a string `s` without spaces. */
  function LeftPad(s: string, w: nat): (r: string)
    ensures |r| == if |s| >= w then |s| else w
  {
    if |s| >= w then s else Zeros(w - |s|) + s
  }

  /** `n` zero digits. */
  function Zeros(n: nat): (r: string)
    ensures |r| == n && forall i :: 0 <= i < n ==> r[i] == '0'
  {
    seq(n, _ => '0')
  }

  lemma {:induction false} ZerosValue(n: nat)
    ensures IsBinary(Zeros(n)) && BinValue(Zeros(n)) == 0
  {
    if n > 0 {
      assert Zeros(n)[..n - 1] == Zeros(n - 1);
      ZerosValue(n - 1);
    }
  }

  lemma {:induction false} ConcatBinary(s: string, t: string)
    requires IsBinary(s) && IsBinary(t)
    ensures IsBinary(s + t)
  {
    forall i | 0 <= i < |s + t|
      ensures (s + t)[i] == '0' || (s + t)[i] == '1'
    {
      if i >= |s| {
        assert (s + t)[i] == t[i - |s|];
      }
    }
  }

  /** Zero-padding the shortest rendering to `w` digits is the `w`-digit rendering. */
  lemma {:induction false} PadMinBinary(u: nat, w: nat)
    requires w >= 1 && u < Pow2(w)
    ensures LeftPad(MinBinary(u), w) == Bits(u, w)
  {
    var m := MinBinary(u);
    MinBinaryLength(u, w);
    var p := LeftPad(m, w);
    if |m| < w {
      var z := Zeros(w - |m|);
      assert p == z + m;
      ZerosValue(w - |m|);
      BinValueConcat(z, m);
      ConcatBinary(z, m);
    }
    assert |p| == w && IsBinary(p) && BinValue(p) == u;
    BinaryInjective(p, Bits(u, w));
  }

  /** `(short) v`: the low 16 bits of `v` read as a two's-complement number. */
  function ToShort(v: int): (r: Int16)
    ensures r % 65536 == v % 65536
    ensures 0 <= v < 65536 ==> r == (if v >= 32768 then v - 65536 else v)
  {
    var u := v % 65536;
    if u >= 32768 then u - 65536 else u
  }

  // --------------------------------------------------------------- decimal

  predicate IsDecimalDigit(c: char) { '0' <= c <= '9' }

  predicate AllDecimal(s: string) {
    forall i :: 0 <= i < |s| ==> IsDecimalDigit(s[i])
  }

  function DigitChar(d: nat): char
    requires d < 10
  {
    (d + '0' as int) as char
  }

  /** The number a string of decimal digits denotes. */
  function DecValue(s: string): nat
    requires AllDecimal(s)
  {
    if s == [] then 0
    else 10 * DecValue(s[..|s| - 1]) + (s[|s| - 1] as int - '0' as int)
  }

  /** `String.valueOf(n)` for `n >= 0`. */
  function NatToString(n: nat): (r: string)
    ensures 1 <= |r| && AllDecimal(r) && DecValue(r) == n
  {
    if n < 10 then [DigitChar(n)]
    else
      var r := NatToString(n / 10) + [DigitChar(n % 10)];
      assert r[..|r| - 1] == NatToString(n / 10);
      r
  }

  /** `String.valueOf(x)`: a minus sign for negative numbers, then the decimal digits. */
  function IntToString(x: int): string {
    if x < 0 then "-" + NatToString(-x) else NatToString(x)
  }

  /**
   * `Integer.parseInt(s)`: an optional sign, one or more decimal digits, and
   * a value that fits in an `int`; `None` where Java throws
   * `NumberFormatException`.
   */
  function ParseInt(s: string): Option<Int32> {
    if s == [] then None
    else
      var digits := if s[0] == '-' || s[0] == '+' then s[1..] else s;
      if digits == [] || !AllDecimal(digits) then None
      else
        var v: int := if s[0] == '-' then -(DecValue(digits) as int) else DecValue(digits);
        if -0x8000_0000 <= v < 0x8000_0000 then Some(v) else None
  }

  /** Reading back the decimal rendering of an `int` gives the `int`. */
  lemma {:induction false} ParseIntOfIntToString(x: Int32)
    ensures ParseInt(IntToString(x)) == Some(x)
  {
    var s := IntToString(x);
    if x < 0 {
      assert s[1..] == NatToString(-(x as int));
    } else {
      assert s[0] != '-' && s[0] != '+' by {
        assert IsDecimalDigit(s[0]);
      }
    }
  }

  /** The digits Java accepts in radix 2, optionally signed: `Long.parseLong(s, 2)`. */
  function ParseLongBinary(s: string): Option<int> {
    if s == [] then None
    else
      var digits := if s[0] == '-' || s[0] == '+' then s[1..] else s;
      if digits == [] || !IsBinary(digits) then None
      else
        var v: int := if s[0] == '-' then -(BinValue(digits) as int) else BinValue(digits);
        if -0x8000_0000_0000_0000 <= v < 0x8000_0000_0000_0000 then Some(v) else None
  }

  /** A string of 1 to 16 binary digits parses to the number it denotes. */
  lemma {:induction false} ParseLongOfBinary(s: string)
    requires IsBinary(s) && 1 <= |s| <= 16
    ensures ParseLongBinary(s) == Some(BinValue(s))
  {
    BinValueBound(s);
    Pow2Monotone(|s|, 16);
    Pow2Values();
  }

  // ------------------------------------------------------------------- hex

  predicate IsHexDigit(c: char) {
    '0' <= c <= '9' || 'A' <= c <= 'F'
  }

  /** The upper-case hexadecimal digit for `d`. */
  function HexDigit(d: nat): (c: char)
    requires d < 16
    ensures IsHexDigit(c)
  {
    if d < 10 then (d + '0' as int) as char else (d - 10 + 'A' as int) as char
  }

  function HexDigitValue(c: char): nat {
    if '0' <= c <= '9' then c as int - '0' as int
    else if 'A' <= c <= 'F' then c as int - 'A' as int + 10
    else 0
  }

  /** The number a string of hexadecimal digits denotes. */
  function HexValue(s: string): nat {
    if s == [] then 0 else 16 * HexValue(s[..|s| - 1]) + HexDigitValue(s[|s| - 1])
  }

  /** `String.format("%04X", n)` for `0 <= n < 65536`: four upper-case hexadecimal digits. */
  function Hex4(n: nat): (r: string)
    requires n < 65536
    ensures |r| == 4 && forall i :: 0 <= i < 4 ==> IsHexDigit(r[i])
    ensures HexValue(r) == n
  {
    var a, n1 := n / 4096, n % 4096;
    var b, n2 := n1 / 256, n1 % 256;
    var c, d := n2 / 16, n2 % 16;
    var r1 := [HexDigit(a)];
    var r2 := r1 + [HexDigit(b)];
    var r3 := r2 + [HexDigit(c)];
    var r := r3 + [HexDigit(d)];
    assert r[..3] == r3 && r3[..2] == r2 && r2[..1] == r1 && r1[..0] == [];
    assert HexValue(r1) == a;
    assert HexValue(r2) == 16 * a + b;
    assert HexValue(r3) == 16 * (16 * a + b) + c;
    r
  }

  /** `String.format("%04d", n)` for `0 <= n < 10000`: four decimal digits. */
  function Dec4(n: nat): (r: string)
    requires n < 10000
    ensures |r| == 4 && AllDecimal(r) && DecValue(r) == n
  {
    var a, n1 := n / 1000, n % 1000;
    var b, n2 := n1 / 100, n1 % 100;
    var c, d := n2 / 10, n2 % 10;
    var r1 := [DigitChar(a)];
    var r2 := r1 + [DigitChar(b)];
    var r3 := r2 + [DigitChar(c)];
    var r := r3 + [DigitChar(d)];
    assert r[..3] == r3 && r3[..2] == r2 && r2[..1] == r1 && r1[..0] == [];
    assert DecValue(r1) == a;
    assert DecValue(r2) == 10 * a + b;
    assert DecValue(r3) == 10 * (10 * a + b) + c;
    r
  }
}
