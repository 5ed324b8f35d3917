/** Properties of the identifier model: the text round trip, the exact
    outcome of the string constructor on every input, the encoding cache,
    and the consistency of equality, hash and wire form. */
module IdProperties {
  import opened Wrappers
  import JavaInt
  import JavaLong
  import JavaSplit
  import opened Ids

  // ---------------------------------------------------------------------------
  // Text round trip

  /** Parsing the text of any identifier gives back its three parts, valid,
      with an empty cache and no exception. */
  lemma {:induction false} ParseToString(id: Id)
    ensures FromString(ToString(id)) == Constructed(FromParts(id.part1, id.part2, id.part3))
  {
    JavaLong.ParseToString(id.part1);
    JavaLong.ParseToString(id.part2);
    JavaLong.ParseToString(id.part3);
  }

  /** The round trip from three `long`s through `new ID(a, b, c).toString()`
      and the string constructor. */
  lemma RoundTrip(a: Long, b: Long, c: Long)
    ensures FromString(ToString(FromParts(a, b, c))) == Constructed(FromParts(a, b, c))
  {
    ParseToString(FromParts(a, b, c));
  }

  /** The same round trip through `encode()`, whatever the cache holds, as
      long as it is coherent. */
  lemma EncodeRoundTrip(id: Id)
    requires CacheCoherent(id)
    ensures FromString(Encode(id).0) == Constructed(FromParts(id.part1, id.part2, id.part3))
  {
    ParseToString(id);
  }

  /** A valid parse came from three tokens whose values are the parts, and
      the input is those tokens joined by dots. */
  lemma ValidParseShape(s: string)
    requires FromString(s).Constructed? && FromString(s).id.isValid
    ensures var t := JavaSplit.Split(s, 3);
      && |t| == 3
      && s == t[0] + "." + t[1] + "." + t[2]
      && Transform(FromString(s).id)
         == [JavaLong.ParseLong(t[0]).value, JavaLong.ParseLong(t[1]).value, JavaLong.ParseLong(t[2]).value]
  {
    var t := JavaSplit.Split(s, 3);
    assert StopIndex(t) == 3;
    JavaSplit.SplitIsSplit(s, 3);
    assert t == [t[0], t[1], t[2]];
    JavaSplit.Join3(t[0], t[1], t[2]);
  }

  /** Three tokens, the first two dot-free, with their parsed values:
      rendering the values gives back the dotted text exactly when every
      token is canonical. */
  lemma RenderIffCanonical(t0: string, t1: string, t2: string, v0: Long, v1: Long, v2: Long)
    requires '.' !in t0 && '.' !in t1
    requires JavaLong.ParseLong(t0) == Some(v0) && JavaLong.ParseLong(t1) == Some(v1)
    requires JavaLong.ParseLong(t2) == Some(v2)
    ensures (JavaLong.ToString(v0) + "." + JavaLong.ToString(v1) + "." + JavaLong.ToString(v2)
             == t0 + "." + t1 + "." + t2)
        <==> JavaLong.IsCanonical(t0) && JavaLong.IsCanonical(t1) && JavaLong.IsCanonical(t2)
  {
    var r0, r1, r2 := JavaLong.ToString(v0), JavaLong.ToString(v1), JavaLong.ToString(v2);
    JavaLong.ToStringParse(t0);
    JavaLong.ToStringParse(t1);
    JavaLong.ToStringParse(t2);
    if r0 + "." + r1 + "." + r2 == t0 + "." + t1 + "." + t2 {
      JavaSplit.SplitThree(r0, r1, r2);
      JavaSplit.SplitThree(t0, t1, t2);
      assert [r0, r1, r2] == [t0, t1, t2];
      assert r0 == t0 && r1 == t1 && r2 == t2;
    }
  }

  /** Rendering a successfully parsed identifier reproduces the input exactly
      when each of its three tokens was written canonically (no '+', no
      leading zeros, no "-0"). */
  lemma ToStringOfParsed(s: string)
    requires FromString(s).Constructed? && FromString(s).id.isValid
    ensures var t := JavaSplit.Split(s, 3);
      (ToString(FromString(s).id) == s)
        <==> JavaLong.IsCanonical(t[0]) && JavaLong.IsCanonical(t[1]) && JavaLong.IsCanonical(t[2])
  {
    var t := JavaSplit.Split(s, 3);
    var id := FromString(s).id;
    ValidParseShape(s);
    JavaSplit.SplitIsSplit(s, 3);
    JavaSplit.ShapeDotFree(t, 3, 0);
    JavaSplit.ShapeDotFree(t, 3, 1);
    var w := Transform(id);
    assert w[0] == id.part1 && w[1] == id.part2 && w[2] == id.part3;
    RenderIffCanonical(t[0], t[1], t[2], id.part1, id.part2, id.part3);
  }

  // ---------------------------------------------------------------------------
  // The three outcomes of the string constructor

  /** The loop yields a valid identifier exactly when there are at least
      three tokens and the first three parse, and then the parts are their
      values; tokens after the third are never read. */
  lemma FromTokensValid(t: seq<string>)
    ensures (FromTokens(t).Constructed? && FromTokens(t).id.isValid)
      <==> (|t| >= 3 && forall k :: 0 <= k < 3 ==> JavaLong.ParseLong(t[k]).Some?)
    ensures FromTokens(t).Constructed? && FromTokens(t).id.isValid ==>
      |t| >= 3 &&
      Transform(FromTokens(t).id)
        == [JavaLong.ParseLong(t[0]).value, JavaLong.ParseLong(t[1]).value, JavaLong.ParseLong(t[2]).value]
  {
    if |t| >= 3 && forall k :: 0 <= k < 3 ==> JavaLong.ParseLong(t[k]).Some? {
      assert TokenParses(t, 0) && TokenParses(t, 1) && TokenParses(t, 2);
    }
  }

  /** The constructor yields a valid identifier exactly when the split gives
      three tokens that all parse, and then the parts are their values. */
  lemma FromStringValid(s: string)
    ensures var t := JavaSplit.Split(s, 3);
      (FromString(s).Constructed? && FromString(s).id.isValid)
      <==> (|t| == 3 && forall k :: 0 <= k < 3 ==> JavaLong.ParseLong(t[k]).Some?)
    ensures var t := JavaSplit.Split(s, 3);
      FromString(s).Constructed? && FromString(s).id.isValid ==>
        Transform(FromString(s).id)
          == [JavaLong.ParseLong(t[0]).value, JavaLong.ParseLong(t[1]).value, JavaLong.ParseLong(t[2]).value]
  {
    FromTokensValid(JavaSplit.Split(s, 3));
  }

  /** When token `k` is present but does not parse, and all before it parse,
      the loop gives an invalid identifier whose parts before `k` hold the
      parsed values and whose parts from `k` on are 0. */
  lemma FromTokensStopsAt(t: seq<string>, k: nat)
    requires k < 3 && k < |t| && JavaLong.ParseLong(t[k]).None?
    requires forall j :: 0 <= j < k ==> JavaLong.ParseLong(t[j]).Some?
    ensures FromTokens(t).Constructed?
    ensures !FromTokens(t).id.isValid && FromTokens(t).id.encoding == None
    ensures forall j :: 0 <= j < 3 ==>
      Transform(FromTokens(t).id)[j] == (if j < k then JavaLong.ParseLong(t[j]).value else 0)
  {
    assert forall j :: 0 <= j < k ==> TokenParses(t, j);
    assert !TokenParses(t, k);
    assert StopIndex(t) == k;
  }

  /** `FromTokensStopsAt` for the split of a string. */
  lemma FromStringStopsAt(s: string, k: nat)
    requires var t := JavaSplit.Split(s, 3);
      && k < |t|
      && JavaLong.ParseLong(t[k]).None?
      && forall j :: 0 <= j < k ==> JavaLong.ParseLong(t[j]).Some?
    ensures FromString(s).Constructed?
    ensures !FromString(s).id.isValid && FromString(s).id.encoding == None
    ensures var t := JavaSplit.Split(s, 3);
      forall j :: 0 <= j < 3 ==>
        Transform(FromString(s).id)[j] == (if j < k then JavaLong.ParseLong(t[j]).value else 0)
  {
    FromTokensStopsAt(JavaSplit.Split(s, 3), k);
  }

  /** The loop throws exactly when there are fewer than three tokens and
      every token present parses; the index read is the token count. */
  lemma FromTokensThrows(t: seq<string>)
    ensures FromTokens(t).IndexOutOfBounds?
      <==> (|t| < 3 && forall j :: 0 <= j < |t| ==> JavaLong.ParseLong(t[j]).Some?)
    ensures FromTokens(t).IndexOutOfBounds? ==> FromTokens(t).index == |t|
  {
    if |t| < 3 && forall j :: 0 <= j < |t| ==> JavaLong.ParseLong(t[j]).Some? {
      assert forall j :: 0 <= j < |t| ==> TokenParses(t, j);
      assert StopIndex(t) == |t|;
    }
  }

  /** The constructor throws exactly when the split gives fewer than three
      tokens and every token present parses; the index read is the token
      count. */
  lemma FromStringThrows(s: string)
    ensures var t := JavaSplit.Split(s, 3);
      FromString(s).IndexOutOfBounds?
      <==> (|t| < 3 && forall j :: 0 <= j < |t| ==> JavaLong.ParseLong(t[j]).Some?)
    ensures FromString(s).IndexOutOfBounds? ==> FromString(s).index == |JavaSplit.Split(s, 3)|
  {
    FromTokensThrows(JavaSplit.Split(s, 3));
  }

  // ---------------------------------------------------------------------------
  // Typical inputs of the string constructor

  /** A token with a character that is neither a digit nor a leading sign
      does not parse. */
  lemma ParseBadChar(t: string, i: nat)
    requires i < |t| && !JavaLong.IsDigit(t[i]) && !JavaLong.IsSign(t[i])
    ensures JavaLong.ParseLong(t).None?
  {
  }

  /** Three tokens of which only the third fails to parse: the first two
      parts are kept, the third is 0, and the identifier is invalid. */
  lemma ThirdTokenFails(a: string, b: string, c: string)
    requires '.' !in a && '.' !in b
    requires JavaLong.ParseLong(a).Some? && JavaLong.ParseLong(b).Some? && JavaLong.ParseLong(c).None?
    ensures FromString(a + "." + b + "." + c)
         == Constructed(Id(JavaLong.ParseLong(a).value, JavaLong.ParseLong(b).value, 0, None, false))
  {
    var s := a + "." + b + "." + c;
    JavaSplit.SplitThree(a, b, c);
    var t := JavaSplit.Split(s, 3);
    assert t[0] == a && t[1] == b && t[2] == c;
    assert forall j :: 0 <= j < 2 ==> JavaLong.ParseLong(t[j]).Some?;
    FromStringStopsAt(s, 2);
    var w := Transform(FromString(s).id);
    assert w[0] == JavaLong.ParseLong(a).value && w[1] == JavaLong.ParseLong(b).value && w[2] == 0;
  }

  /** A third dot stays in the third token, which then fails to parse: the
      first two parts are kept, the third is 0 and the identifier is invalid
      ("1.2.3.4" gives 1, 2, 0). */
  lemma ExtraDotInvalid(a: string, b: string, c: string)
    requires JavaLong.ParseLong(a).Some? && JavaLong.ParseLong(b).Some? && '.' in c
    ensures FromString(a + "." + b + "." + c)
         == Constructed(Id(JavaLong.ParseLong(a).value, JavaLong.ParseLong(b).value, 0, None, false))
  {
    JavaLong.ParsedHasNoDot(a);
    JavaLong.ParsedHasNoDot(b);
    var i := JavaSplit.FirstDot(c);
    ParseBadChar(c, i);
    ThirdTokenFails(a, b, c);
  }

  /** A second token that does not parse keeps the first part and zeroes the
      rest, whatever follows ("12.abc.99" gives 12, 0, 0). */
  lemma BadMiddleInvalid(a: string, b: string, c: string)
    requires JavaLong.ParseLong(a).Some?
    requires '.' !in b && JavaLong.ParseLong(b).None?
    ensures FromString(a + "." + b + "." + c)
         == Constructed(Id(JavaLong.ParseLong(a).value, 0, 0, None, false))
  {
    var s := a + "." + b + "." + c;
    JavaLong.ParsedHasNoDot(a);
    JavaSplit.SplitThree(a, b, c);
    FromStringStopsAt(s, 1);
    var w := Transform(FromString(s).id);
    assert w[0] == JavaLong.ParseLong(a).value && w[1] == 0 && w[2] == 0;
  }

  /** Two or one tokens that parse, without a third: the read of the missing
      token throws, at index 2 or 1 ("5.6" throws at index 2). */
  lemma TooFewTokensThrow(a: string, b: string)
    requires JavaLong.ParseLong(a).Some? && JavaLong.ParseLong(b).Some?
    ensures FromString(a + "." + b) == IndexOutOfBounds(2)
    ensures FromString(a) == IndexOutOfBounds(1)
  {
    JavaLong.ParsedHasNoDot(a);
    JavaLong.ParsedHasNoDot(b);
    JavaSplit.SplitTwo(a, b);
    JavaSplit.SplitOne(a);
    FromStringThrows(a + "." + b);
    FromStringThrows(a);
  }

  /** A first token that does not parse is caught before any missing token
      is read: the result is an invalid all-zero identifier, not an
      exception, whatever follows the first dot. The empty string is such an
      input. */
  lemma FailsBeforeMissing(a: string, rest: string)
    requires '.' !in a && JavaLong.ParseLong(a).None?
    ensures FromString(a) == Constructed(Id(0, 0, 0, None, false))
    ensures FromString(a + "." + rest) == Constructed(Id(0, 0, 0, None, false))
    ensures FromString("") == Constructed(Id(0, 0, 0, None, false))
  {
    JavaSplit.SplitOne(a);
    JavaSplit.SplitCons(a, rest, 3);
    JavaSplit.SplitOne("");
    FromStringStopsAt(a + "." + rest, 0);
    var w := Transform(FromString(a + "." + rest).id);
    assert w[0] == 0 && w[1] == 0 && w[2] == 0;
  }

  /** "1.2.3.4": invalid, with parts 1, 2 and 0. */
  lemma ExampleExtraDot()
    ensures FromString("1.2.3.4") == Constructed(Id(1, 2, 0, None, false))
  {
    assert "1.2.3.4" == "1" + "." + "2" + "." + "3.4";
    assert JavaLong.ToString(1) == "1" && JavaLong.ToString(2) == "2";
    JavaLong.ParseToString(1);
    JavaLong.ParseToString(2);
    assert "3.4"[1] == '.';
    ExtraDotInvalid("1", "2", "3.4");
  }

  /** "12.abc.99": invalid, with parts 12, 0 and 0. */
  lemma ExampleBadMiddle()
    ensures FromString("12.abc.99") == Constructed(Id(12, 0, 0, None, false))
  {
    assert "12.abc.99" == "12" + "." + "abc" + "." + "99";
    assert JavaLong.ToString(12) == "12";
    JavaLong.ParseToString(12);
    ParseBadChar("abc", 0);
    BadMiddleInvalid("12", "abc", "99");
  }

  /** "5.6" and "7": the constructor throws, at index 2 and 1. */
  lemma ExampleTooFewTokens()
    ensures FromString("5.6") == IndexOutOfBounds(2)
    ensures FromString("7") == IndexOutOfBounds(1)
  {
    assert "5.6" == "5" + "." + "6";
    assert JavaLong.ToString(5) == "5" && JavaLong.ToString(6) == "6" && JavaLong.ToString(7) == "7";
    JavaLong.ParseToString(5);
    JavaLong.ParseToString(6);
    JavaLong.ParseToString(7);
    TooFewTokensThrow("5", "6");
    TooFewTokensThrow("7", "7");
  }

  /** "x.1" and "": invalid with all parts 0, not an exception. */
  lemma ExampleFailsBeforeMissing()
    ensures FromString("x.1") == Constructed(Id(0, 0, 0, None, false))
    ensures FromString("") == Constructed(Id(0, 0, 0, None, false))
  {
    assert "x.1" == "x" + "." + "1";
    ParseBadChar("x", 0);
    FailsBeforeMissing("x", "1");
  }

  // The documented third part, 15127007074950000, is checked in four pieces
  // that each start with a non-zero digit: 1512 | 70070 | 749 | 50000. The
  // helpers below take their values as parameters: a literal argument in a
  // contract makes the verifier evaluate the decimal of that literal eagerly,
  // which for 17 digits costs more than the whole proof.

  lemma DecimalPiece1(n: nat)
    requires n == 1512
    ensures JavaLong.NatToDecimal(n) == "1512"
  {
    assert JavaLong.NatToDecimal(1512) == "1512";
  }

  lemma DecimalPiece2(n: nat)
    requires n == 70070
    ensures JavaLong.NatToDecimal(n) == "70070"
  {
    assert JavaLong.NatToDecimal(70070) == "70070";
  }

  lemma DecimalPiece3(n: nat)
    requires n == 749
    ensures JavaLong.NatToDecimal(n) == "749"
  {
    assert JavaLong.NatToDecimal(749) == "749";
  }

  lemma DecimalPiece4(n: nat)
    requires n == 50000
    ensures JavaLong.NatToDecimal(n) == "50000"
  {
    assert JavaLong.NatToDecimal(50000) == "50000";
  }

  /** 749 | 50000 gives the decimal of 74950000. */
  lemma DecimalJoin1(c: nat, d: nat, n: nat)
    requires c == 749 && d == 50000 && n == 74950000
    ensures JavaLong.NatToDecimal(n) == "74950000"
  {
    DecimalPiece3(c);
    DecimalPiece4(d);
    assert JavaLong.Pow10(4) == 10000 && JavaLong.Pow10(5) == 100000;
    JavaLong.DecimalConcat(c, d, 5);
    assert n == c * JavaLong.Pow10(5) + d;
    assert "749" + "50000" == "74950000";
  }

  /** 70070 | 74950000 gives the decimal of 7007074950000. */
  lemma DecimalJoin2(b: nat, r: nat, n: nat)
    requires b == 70070 && r == 74950000 && n == 7007074950000
    ensures JavaLong.NatToDecimal(n) == "7007074950000"
  {
    DecimalPiece2(b);
    DecimalJoin1(749, 50000, r);
    Pow10SevenEight(7, 8);
    JavaLong.DecimalConcat(b, r, 8);
    assert n == b * JavaLong.Pow10(8) + r;
    assert "70070" + "74950000" == "7007074950000";
  }

  /** The two powers of ten the middle step needs. */
  lemma Pow10SevenEight(seven: nat, eight: nat)
    requires seven == 7 && eight == 8
    ensures JavaLong.Pow10(seven) == 10000000 && JavaLong.Pow10(eight) == 100000000
  {
    assert JavaLong.Pow10(3) == 1000 && JavaLong.Pow10(4) == 10000;
    JavaLong.Pow10Add(3, 4);
    JavaLong.Pow10Add(4, 4);
  }

  /** The two powers of ten the last step needs. */
  lemma Pow10TwelveThirteen(twelve: nat, thirteen: nat)
    requires twelve == 12 && thirteen == 13
    ensures JavaLong.Pow10(twelve) == 1000000000000 && JavaLong.Pow10(thirteen) == 10000000000000
  {
    assert JavaLong.Pow10(4) == 10000 && JavaLong.Pow10(5) == 100000 && JavaLong.Pow10(8) == 100000000;
    JavaLong.Pow10Add(4, 8);
    JavaLong.Pow10Add(5, 8);
  }

  /** The text of the last step, glued. */
  lemma GlueThirdPart(x: string, y: string)
    requires x == "1512" && y == "7007074950000"
    ensures x + y == "15127007074950000"
  {
  }

  /** 1512 | 7007074950000 gives the decimal of the documented third part. */
  lemma DecimalThirdPart(part3: Long)
    requires part3 == 15127007074950000
    ensures JavaLong.ToString(part3) == "15127007074950000"
  {
    var a := part3 / 10000000000000;
    var r := part3 % 10000000000000;
    DecimalPiece1(a);
    DecimalJoin2(70070, 74950000, r);
    Pow10TwelveThirteen(12, 13);
    JavaLong.DecimalConcat(a, r, 13);
    GlueThirdPart(JavaLong.NatToDecimal(a), JavaLong.NatToDecimal(r));
  }

  /** The decimals of the two small documented parts. */
  lemma DecimalSmallParts(a: Long, b: Long)
    requires a == 12 && b == 35
    ensures JavaLong.ToString(a) == "12" && JavaLong.ToString(b) == "35"
  {
  }

  /** The documented text, glued from its three decimals. */
  lemma GlueEncoding(x: string, y: string, z: string)
    requires x == "12" && y == "35" && z == "15127007074950000"
    ensures x + "." + y + "." + z == "12.35.15127007074950000"
  {
  }

  /** The documented encoding of a typical identifier. The parts are
      parameters for the reason given above the decimal pieces. */
  lemma ExampleEncoding(a: Long, b: Long, c: Long)
    requires a == 12 && b == 35 && c == 15127007074950000
    ensures ToString(FromParts(a, b, c)) == "12.35.15127007074950000"
  {
    DecimalSmallParts(a, b);
    DecimalThirdPart(c);
    GlueEncoding(JavaLong.ToString(a), JavaLong.ToString(b), JavaLong.ToString(c));
  }
  /** The documented encoding, stated on the literal parts. */
  lemma ExampleEncodingText()
    ensures ToString(FromParts(12, 35, 15127007074950000)) == "12.35.15127007074950000"
  {
    ExampleEncoding(12, 35, 15127007074950000);
  }


  // ---------------------------------------------------------------------------
  // The encoding cache

  /** `encode()` gives what `toString()` gives, fills the cache, and a second
      call returns the same text and leaves the object as the first left it;
      the parts never change. */
  lemma EncodeTwice(id: Id)
    requires CacheCoherent(id)
    ensures var (s1, id1) := Encode(id);
      && s1 == ToString(id)
      && id1.encoding == Some(s1)
      && Equals(id1, id) && id1.isValid == id.isValid
      && Encode(id1) == (s1, id1)
  {
  }

  // ---------------------------------------------------------------------------
  // Equality, hash and wire form

  /** Equality is reflexive, symmetric and transitive. */
  lemma EqualsIsEquivalence(a: Id, b: Id, c: Id)
    ensures Equals(a, a)
    ensures Equals(a, b) ==> Equals(b, a)
    ensures Equals(a, b) && Equals(b, c) ==> Equals(a, c)
  {
  }

  /** The cache and the validity flag affect neither equality nor hash. */
  lemma AuxiliaryStateIgnored(id: Id, encoding: Option<string>, isValid: bool)
    ensures var other := id.(encoding := encoding, isValid := isValid);
      Equals(id, other) && HashCode(id) == HashCode(other)
  {
  }

  /** For parts that are non-negative `int`s each fold is the part itself,
      so the hash is the polynomial in the parts, wrapped to 32 bits. */
  lemma HashOfSmallParts(a: Long, b: Long, c: Long)
    requires 0 <= a <= JavaInt.MaxInt && 0 <= b <= JavaInt.MaxInt && 0 <= c <= JavaInt.MaxInt
    ensures HashCode(FromParts(a, b, c)) == JavaInt.Wrap(961 * a + 31 * b + c)
  {
    var id := FromParts(a, b, c);
    JavaLong.LongHashOfInt(a);
    JavaLong.LongHashOfInt(b);
    JavaLong.LongHashOfInt(c);
    assert HashCode(id) == HashOfFolds(a, b, c);
  }

  /** `new ID(1, 2, 3)` hashes to 31 * 31 * 1 + 31 * 2 + 3. */
  lemma ExampleHash()
    ensures HashCode(FromParts(1, 2, 3)) == 1026
  {
    HashOfSmallParts(1, 2, 3);
  }
}
