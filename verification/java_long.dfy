/** Java's 64-bit `long` as the identifier uses it: its range, the decimal text
    of `Long.toString`, the parser `Long.parseLong`, and the fold
    `(int)(v ^ (v >>> 32))` that `Long.hashCode` and `ID.hashCode` use.
    Digits are ASCII '0'..'9' only. */
module JavaLong {
  import opened Wrappers
  import JavaInt

  const MinLong: int := -0x8000_0000_0000_0000
  const MaxLong: int := 0x7fff_ffff_ffff_ffff

  /** A value of Java type `long`. */
  type Long = x: int | MinLong <= x <= MaxLong

  predicate InLongRange(x: int) {
    MinLong <= x <= MaxLong
  }

  // ---------------------------------------------------------------------------
  // Decimal digits

  predicate IsDigit(c: char) {
    '0' <= c <= '9'
  }

  predicate AllDigits(s: string) {
    forall i :: 0 <= i < |s| ==> IsDigit(s[i])
  }

  function DigitChar(d: nat): (c: char)
    requires d < 10
    ensures IsDigit(c)
  {
    (d + '0' as int) as char
  }

  function DigitValue(c: char): (d: nat)
    requires IsDigit(c)
    ensures d < 10 && DigitChar(d) == c
  {
    c as int - '0' as int
  }

  /** The number a string of decimal digits denotes, most significant first. */
  function DigitsValue(s: string): nat
    requires AllDigits(s)
  {
    if |s| == 0 then 0 else 10 * DigitsValue(s[..|s| - 1]) + DigitValue(s[|s| - 1])
  }

  /** A digit string without superfluous leading zeros. */
  predicate CanonicalDigits(d: string) {
    |d| > 0 && AllDigits(d) && (d[0] == '0' ==> |d| == 1)
  }

  /** Text in the one form `Long.toString` produces: canonical digits, or a
      '-' followed by canonical digits that do not denote zero. */
  predicate IsCanonical(s: string) {
    || CanonicalDigits(s)
    || (|s| >= 2 && s[0] == '-' && CanonicalDigits(s[1..]) && s[1] != '0')
  }

  // ---------------------------------------------------------------------------
  // Long.toString

  /** The decimal digits of `n`, most significant first, without leading zeros. */
  function NatToDecimal(n: nat): (s: string)
    ensures CanonicalDigits(s)
    ensures s[0] == '0' <==> n == 0
  {
    if n < 10 then [DigitChar(n)] else NatToDecimal(n / 10) + [DigitChar(n % 10)]
  }

  /** `Long.toString(x)`: decimal, with a leading '-' for negatives. */
  function ToString(x: Long): (s: string)
    ensures IsCanonical(s)
    ensures '.' !in s
  {
    if x < 0 then "-" + NatToDecimal(-(x as int)) else NatToDecimal(x)
  }

  function Pow10(k: nat): (p: nat)
    ensures p > 0
  {
    if k == 0 then 1 else 10 * Pow10(k - 1)
  }

  /** Powers of ten multiply by adding exponents. */
  lemma {:induction false} Pow10Add(i: nat, j: nat)
    ensures Pow10(i + j) == Pow10(i) * Pow10(j)
  {
    if i > 0 {
      Pow10Add(i - 1, j);
    }
  }

  /** Appending a digit to a positive number appends its character. */
  lemma DecimalSnoc(n: nat, d: nat)
    requires n > 0 && d < 10
    ensures NatToDecimal(10 * n + d) == NatToDecimal(n) + [DigitChar(d)]
  {
    assert (10 * n + d) / 10 == n && (10 * n + d) % 10 == d;
  }

  /** The decimal of `hi * 10^k + lo`, for a `lo` of exactly `k` digits, is the
      decimal of `hi` followed by that of `lo`. */
  lemma {:induction false} DecimalConcat(hi: nat, lo: nat, k: nat)
    requires hi > 0 && k > 0 && Pow10(k - 1) <= lo < Pow10(k)
    ensures NatToDecimal(hi * Pow10(k) + lo) == NatToDecimal(hi) + NatToDecimal(lo)
  {
    var p := Pow10(k - 1);
    assert Pow10(k) == 10 * p;
    assert hi * Pow10(k) == 10 * (hi * p);
    if k == 1 {
      DecimalSnoc(hi, lo);
    } else {
      var q, d := lo / 10, lo % 10;
      assert lo == 10 * q + d;
      assert p == 10 * Pow10(k - 2);
      assert Pow10(k - 2) <= q < p;
      DecimalConcat(hi, q, k - 1);
      DecimalSnoc(hi * p + q, d);
      assert hi * Pow10(k) + lo == 10 * (hi * p + q) + d;
    }
  }

  // ---------------------------------------------------------------------------
  // Long.parseLong

  predicate IsSign(c: char) {
    c == '-' || c == '+'
  }

  /** `Long.parseLong(s)`: None stands for the NumberFormatException it throws.
      One leading '-' or '+' is accepted; then at least one digit must follow,
      nothing but digits may follow, and the value must fit a `long`. The
      contract states the same rule through `HasBadChar` and `SignedValue`. */
  function ParseLong(s: string): (r: Option<Long>)
    ensures r.Some? <==>
      && s != "" && s != "-" && s != "+"
      && !HasBadChar(s)
      && InLongRange(SignedValue(s))
    ensures r.Some? ==> r.value == SignedValue(s)
    ensures r.Some? ==> IsDigit(s[|s| - 1])
    ensures r.Some? && r.value < 0 ==> s[0] == '-'
  {
    if |s| == 0 then None
    else
      SignedDigits(s);
      var negative := s[0] == '-';
      var digits := if IsSign(s[0]) then s[1..] else s;
      if |digits| == 0 || !AllDigits(digits) then None
      else
        var v: int := if negative then -(DigitsValue(digits) as int) else DigitsValue(digits);
        if InLongRange(v) then Some(v) else None
  }

  /** Some character is neither a digit nor a sign in the first position. */
  predicate HasBadChar(s: string) {
    exists i :: 0 <= i < |s| && !IsDigit(s[i]) && !(i == 0 && IsSign(s[i]))
  }

  /** The value a well-formed optionally signed digit string denotes, unbounded. */
  function SignedValue(s: string): int
    requires |s| > 0 && !HasBadChar(s)
  {
    var d := if IsSign(s[0]) then s[1..] else s;
    assert AllDigits(d) by {
      forall i | 0 <= i < |d| ensures IsDigit(d[i]) {
        if IsSign(s[0]) { assert d[i] == s[i + 1]; }
      }
    }
    if s[0] == '-' then -(DigitsValue(d) as int) else DigitsValue(d)
  }

  /** A text `Long.parseLong` accepts holds no '.'. */
  lemma ParsedHasNoDot(s: string)
    requires ParseLong(s).Some?
    ensures '.' !in s
  {
  }

  /** The digits after an optional sign are all digits exactly when no
      character is out of place, and there are none exactly for a lone sign. */
  lemma SignedDigits(s: string)
    requires |s| > 0
    ensures var d := if IsSign(s[0]) then s[1..] else s;
      && (AllDigits(d) <==> !HasBadChar(s))
      && (|d| == 0 <==> s == "-" || s == "+")
  {
    var d := if IsSign(s[0]) then s[1..] else s;
    if HasBadChar(s) {
      var i :| 0 <= i < |s| && !IsDigit(s[i]) && !(i == 0 && IsSign(s[i]));
      if IsSign(s[0]) {
        assert d[i - 1] == s[i];
      } else {
        assert d[i] == s[i];
      }
      assert !AllDigits(d);
    } else {
      assert AllDigits(d) by {
        forall j | 0 <= j < |d| ensures IsDigit(d[j]) {
          if IsSign(s[0]) { assert d[j] == s[j + 1]; }
        }
      }
    }
    if |d| == 0 {
      assert s == [s[0]];
    }
  }

  // ---------------------------------------------------------------------------
  // Round trips between ToString and ParseLong

  /** Reading back the digits of `n` gives `n`. */
  lemma {:induction false} NatToDecimalValue(n: nat)
    ensures DigitsValue(NatToDecimal(n)) == n
  {
    if n >= 10 {
      var s := NatToDecimal(n);
      assert s[..|s| - 1] == NatToDecimal(n / 10);
      NatToDecimalValue(n / 10);
    }
  }

  /** A canonical digit string is the decimal text of the number it denotes. */
  lemma {:induction false} CanonicalDigitsRender(d: string)
    requires CanonicalDigits(d)
    ensures NatToDecimal(DigitsValue(d)) == d
    ensures DigitsValue(d) == 0 <==> d == "0"
  {
    var n := DigitsValue(d);
    if |d| == 1 {
      assert d[..0] == "";
    } else {
      var p := d[..|d| - 1];
      assert p[0] == d[0];
      assert CanonicalDigits(p);
      CanonicalDigitsRender(p);
      assert DigitsValue(p) != 0;
      assert n / 10 == DigitsValue(p) && n % 10 == DigitValue(d[|d| - 1]);
      assert d == p + [d[|d| - 1]];
    }
  }

  /** Parsing the text of any `long` gives it back. */
  lemma {:induction false} ParseToString(x: Long)
    ensures ParseLong(ToString(x)) == Some(x)
  {
    var s := ToString(x);
    if x < 0 {
      NatToDecimalValue(-(x as int));
      assert s[1..] == NatToDecimal(-(x as int));
    } else {
      NatToDecimalValue(x);
    }
  }

  /** Rendering a parsed value reproduces the input exactly when the input was
      written in canonical form (no '+', no leading zeros, no "-0"). */
  lemma {:induction false} ToStringParse(s: string)
    requires ParseLong(s).Some?
    ensures ToString(ParseLong(s).value) == s <==> IsCanonical(s)
  {
    var v := ParseLong(s).value;
    if IsCanonical(s) {
      if CanonicalDigits(s) {
        CanonicalDigitsRender(s);
      } else {
        var d := s[1..];
        CanonicalDigitsRender(d);
        assert s == "-" + d;
      }
    }
  }

  // ---------------------------------------------------------------------------
  // Long.hashCode

  function Pow2(n: nat): (p: nat)
    ensures p > 0
  {
    if n == 0 then 1 else 2 * Pow2(n - 1)
  }

  /** The unsigned value of the 64 bits of a `long` in two's complement. */
  function Unsigned(x: Long): (u: nat)
    ensures u < 0x1_0000_0000_0000_0000
  {
    if x < 0 then x as int + 0x1_0000_0000_0000_0000 else x
  }

  /** Bit `i` of `a`, bit 0 being the least significant. */
  function Bit(a: nat, i: nat): (b: nat)
    ensures b < 2
  {
    if i == 0 then a % 2 else Bit(a / 2, i - 1)
  }

  /** The low `n` bits of `a ^ b`, for non-negative `a` and `b`, computed one
      bit at a time from the least significant end: a value below `2^n` whose
      every bit is the exclusive or of the bits of `a` and `b` there. */
  function XorBits(a: nat, b: nat, n: nat): (r: nat)
    ensures r < Pow2(n)
    ensures forall i :: 0 <= i < n ==> Bit(r, i) == (if Bit(a, i) == Bit(b, i) then 0 else 1)
  {
    if n == 0 then 0
    else (if a % 2 == b % 2 then 0 else 1) + 2 * XorBits(a / 2, b / 2, n - 1)
  }

  /** `(int)(x ^ (x >>> 32))`: the low 32 bits of the value xor its high half,
      read as an `int`. Bit `i` of the result, in two's complement, is the
      exclusive or of bits `i` and `i + 32` of `x`. */
  function LongHash(x: Long): (h: JavaInt.Int)
    ensures forall i :: 0 <= i < 32 ==>
      Bit(Unsigned(h), i) == (if Bit(Unsigned(x), i) == Bit(Unsigned(x), i + 32) then 0 else 1)
  {
    var u := Unsigned(x);
    FoldBits(u);
    JavaInt.Wrap(XorBits(u, u / 0x1_0000_0000, 32))
  }

  /** The bits of the fold of the 64-bit pattern `u`. */
  lemma FoldBits(u: nat)
    ensures var h := JavaInt.Wrap(XorBits(u, u / 0x1_0000_0000, 32));
      forall i :: 0 <= i < 32 ==> Bit(Unsigned(h), i) == (if Bit(u, i) == Bit(u, i + 32) then 0 else 1)
  {
    Pow2Value();
    var v := XorBits(u, u / 0x1_0000_0000, 32);
    var h := JavaInt.Wrap(v);
    WrapLowBits(v);
    ShiftDiv(u, 32);
    forall i | 0 <= i < 32
      ensures Bit(Unsigned(h), i) == (if Bit(u, i) == Bit(u, i + 32) then 0 else 1)
    {
      BitMod(Unsigned(h), 32, i);
      BitShift(u, 32, i);
    }
  }

  /** A value below 2^32 read as an `int` keeps its low 32 bits in two's
      complement. */
  lemma WrapLowBits(v: nat)
    requires v < 0x1_0000_0000
    ensures Unsigned(JavaInt.Wrap(v)) % 0x1_0000_0000 == v
  {
    var h := JavaInt.Wrap(v);
    if v > JavaInt.MaxInt {
      var k := (h - v) / JavaInt.Modulus;
      assert h - v == k * JavaInt.Modulus;
      assert k == -1;
    }
  }

  /** `a` shifted right by `k` bits, one bit at a time. */
  function Shift(a: nat, k: nat): nat {
    if k == 0 then a else Shift(a / 2, k - 1)
  }

  /** Shifting right by `k` bits moves bit `i + k` to bit `i`. */
  lemma {:induction false} BitShift(a: nat, k: nat, i: nat)
    ensures Bit(Shift(a, k), i) == Bit(a, i + k)
    decreases k
  {
    if k > 0 {
      BitShift(a / 2, k - 1, i);
    }
  }

  /** Shifting right by `k` bits is dividing by `2^k`. */
  lemma {:induction false} ShiftDiv(a: nat, k: nat)
    ensures Shift(a, k) == a / Pow2(k)
    decreases k
  {
    if k > 0 {
      ShiftDiv(a / 2, k - 1);
      DivDiv(a, Pow2(k - 1));
    }
  }

  /** Halving and then dividing by `p` is dividing by `2 * p`. */
  lemma DivDiv(a: nat, p: nat)
    requires p > 0
    ensures (a / 2) / p == a / (2 * p)
  {
    var q, r := (a / 2) / p, (a / 2) % p;
    assert a == q * (2 * p) + (2 * r + a % 2);
    DivModUnique(a, 2 * p, q, 2 * r + a % 2);
  }

  /** The bits below `n` depend only on the remainder modulo `2^n`. */
  lemma {:induction false} BitMod(a: nat, n: nat, i: nat)
    requires i < n
    ensures Bit(a % Pow2(n), i) == Bit(a, i)
    decreases i
  {
    LowBits(a, n);
    if i > 0 {
      assert (a % Pow2(n)) / 2 == (a / 2) % Pow2(n - 1);
      BitMod(a / 2, n - 1, i - 1);
    }
  }

  /** Numbers that agree on their bits below `n` agree modulo `2^n`. */
  lemma {:induction false} BitsDetermineLow(a: nat, b: nat, n: nat)
    requires forall i :: 0 <= i < n ==> Bit(a, i) == Bit(b, i)
    ensures a % Pow2(n) == b % Pow2(n)
    decreases n
  {
    if n > 0 {
      assert Bit(a, 0) == Bit(b, 0);
      forall i | 0 <= i < n - 1
        ensures Bit(a / 2, i) == Bit(b / 2, i)
      {
        assert Bit(a, i + 1) == Bit(b, i + 1);
      }
      BitsDetermineLow(a / 2, b / 2, n - 1);
      LowBits(a, n);
      LowBits(b, n);
    }
  }

  /** An `int` is determined by its 32 bits in two's complement, so the
      contract of `LongHash` fixes its result. */
  lemma IntOfBits(h1: JavaInt.Int, h2: JavaInt.Int)
    requires forall i :: 0 <= i < 32 ==> Bit(Unsigned(h1), i) == Bit(Unsigned(h2), i)
    ensures h1 == h2
  {
    BitsDetermineLow(Unsigned(h1), Unsigned(h2), 32);
    Pow2Value();
  }

  /** The low `n` bits of `a`, rebuilt one bit at a time. */
  function LowBitsOf(a: nat, n: nat): nat {
    if n == 0 then 0 else a % 2 + 2 * LowBitsOf(a / 2, n - 1)
  }

  /** `n` one bits. */
  function Ones(n: nat): nat {
    if n == 0 then 0 else 1 + 2 * Ones(n - 1)
  }

  /** Xor with zero keeps the low `n` bits. */
  lemma {:induction false} XorBitsZero(a: nat, n: nat)
    ensures XorBits(a, 0, n) == LowBitsOf(a, n)
  {
    if n > 0 {
      XorBitsZero(a / 2, n - 1);
    }
  }

  /** Xor with `n` one bits complements the low `n` bits. */
  lemma {:induction false} XorBitsOnes(a: nat, n: nat)
    ensures XorBits(a, Ones(n), n) == Ones(n) - LowBitsOf(a, n)
  {
    if n > 0 {
      var ones := Ones(n);
      assert ones % 2 == 1 && ones / 2 == Ones(n - 1);
      XorBitsOnes(a / 2, n - 1);
    }
  }

  /** The bits rebuilt are the remainder modulo `2^n`. */
  lemma {:induction false} LowBitsMod(a: nat, n: nat)
    ensures LowBitsOf(a, n) == a % Pow2(n)
  {
    if n > 0 {
      LowBitsMod(a / 2, n - 1);
      LowBits(a, n);
    }
  }

  /** `n` one bits are `2^n - 1`. */
  lemma {:induction false} OnesPow2(n: nat)
    ensures Ones(n) == Pow2(n) - 1
  {
    if n > 0 {
      OnesPow2(n - 1);
    }
  }

  /** The low `n` bits of `a` are its lowest bit plus twice the low `n - 1`
      bits of `a / 2`. */
  lemma LowBits(a: nat, n: nat)
    requires n > 0
    ensures a % Pow2(n) == a % 2 + 2 * ((a / 2) % Pow2(n - 1))
  {
    var p := Pow2(n - 1);
    var q, r := (a / 2) / p, (a / 2) % p;
    assert a / 2 == q * p + r;
    assert a == q * (2 * p) + (2 * r + a % 2);
    assert 0 <= 2 * r + a % 2 < 2 * p;
    DivModUnique(a, 2 * p, q, 2 * r + a % 2);
  }

  /** Division with remainder is unique. */
  lemma DivModUnique(a: int, d: int, q: int, r: int)
    requires d > 0 && a == q * d + r && 0 <= r < d
    ensures a / d == q && a % d == r
  {
    var q0, r0 := a / d, a % d;
    assert a == q0 * d + r0;
    assert (q - q0) * d == r0 - r;
    if q > q0 {
      MulAtLeast(q - q0, d);
    } else if q < q0 {
      MulAtLeast(q0 - q, d);
    }
  }

  /** A positive multiple of `d` is at least `d`. */
  lemma MulAtLeast(k: int, d: int)
    requires k >= 1 && d > 0
    ensures k * d >= d
  {
    assert k * d == (k - 1) * d + d;
  }

  /** For a `long` in the `int` range the fold gives back the value when it is
      non-negative and its complement `-x - 1` when it is negative (the high
      half is then all ones). */
  lemma {:induction false} LongHashOfInt(x: Long)
    requires JavaInt.MinInt <= x <= JavaInt.MaxInt
    ensures LongHash(x) == if x >= 0 then x else -(x as int) - 1
  {
    var u := Unsigned(x);
    Pow2Value();
    LowBitsMod(u, 32);
    if x >= 0 {
      assert u / 0x1_0000_0000 == 0;
      XorBitsZero(u, 32);
    } else {
      assert u / 0x1_0000_0000 == 0xffff_ffff;
      OnesPow2(32);
      XorBitsOnes(u, 32);
      assert u % 0x1_0000_0000 == x as int + 0x1_0000_0000;
    }
  }

  /** Pow2(n) as the literal 2^n for the width the fold uses. */
  lemma Pow2Value()
    ensures Pow2(32) == 0x1_0000_0000
  {
    assert Pow2(2) == 4;
    Pow2Add(2, 2);
    Pow2Add(4, 4);
    Pow2Add(8, 8);
    Pow2Add(16, 16);
  }

  /** Powers of two multiply by adding exponents. */
  lemma {:induction false} Pow2Add(i: nat, j: nat)
    ensures Pow2(i + j) == Pow2(i) * Pow2(j)
  {
    if i > 0 {
      Pow2Add(i - 1, j);
    }
  }
}
