/** The trace/segment identifier `ID`: three `long` parts (application
    instance, thread, `timestamp * 10000 + sequence`), a lazily filled cache of
    the text `part1.part2.part3`, and a validity flag that only the string
    constructor can clear. */
module Ids {
  import opened Wrappers
  import JavaInt
  import JavaLong
  import JavaSplit

  type Long = JavaLong.Long

  /** An `ID` object. `encoding` is the cache `encode()` fills (None for Java's
      null); `isValid` is the flag `isValid()` returns. */
  datatype Id = Id(part1: Long, part2: Long, part3: Long, encoding: Option<string>, isValid: bool)

  /** What running the string constructor produces: an object, or the
      ArrayIndexOutOfBoundsException that escapes it, with the index read. */
  datatype ParseOutcome = Constructed(id: Id) | IndexOutOfBounds(index: nat)

  // ---------------------------------------------------------------------------
  // Construction from parts

  /** `new ID(part1, part2, part3)`. */
  function FromParts(part1: Long, part2: Long, part3: Long): (id: Id)
    ensures id.part1 == part1 && id.part2 == part2 && id.part3 == part3
    ensures id.isValid && id.encoding == None
  {
    Id(part1, part2, part3, None, true)
  }

  // ---------------------------------------------------------------------------
  // Construction from a string

  /** Iteration `part` of the constructor's loop can read and parse its token. */
  predicate TokenParses(tokens: seq<string>, part: nat) {
    part < |tokens| && JavaLong.ParseLong(tokens[part]).Some?
  }

  /** The iteration at which the constructor's loop leaves: the first of 0, 1, 2
      whose token is missing or does not parse, or 3 when none is. */
  function StopIndex(tokens: seq<string>): (k: nat)
    ensures k <= 3
    ensures forall j :: 0 <= j < k ==> TokenParses(tokens, j)
    ensures k < 3 ==> !TokenParses(tokens, k)
  {
    if !TokenParses(tokens, 0) then 0
    else if !TokenParses(tokens, 1) then 1
    else if !TokenParses(tokens, 2) then 2
    else 3
  }

  /** Part number `j` (0-based) after the loop left at `stop`: the parsed value
      of its token if the loop got past it, else Java's default 0. */
  function PartAfter(tokens: seq<string>, j: nat, stop: nat): Long
    requires stop <= 3
    requires forall i :: 0 <= i < stop ==> TokenParses(tokens, i)
  {
    if j < stop then
      assert TokenParses(tokens, j);
      JavaLong.ParseLong(tokens[j]).value
    else 0
  }

  /** `new ID(encodingString)`: split at the first two dots, then parse the
      tokens in order. */
  function FromString(encodingString: string): (r: ParseOutcome)
    ensures r.Constructed? ==> r.id.encoding == None
    ensures r.IndexOutOfBounds? ==> r.index < 3
  {
    FromTokens(JavaSplit.Split(encodingString, 3))
  }

  /** The constructor's loop over the tokens of the split. A token that does
      not parse clears `isValid` and ends the loop, leaving earlier parts set
      and later ones 0; a missing token is an uncaught out-of-bounds read. */
  function FromTokens(idParts: seq<string>): (r: ParseOutcome)
    ensures r.Constructed? ==> r.id.encoding == None
    ensures r.IndexOutOfBounds? ==> r.index < 3
  {
    var stop := StopIndex(idParts);
    if stop < 3 && stop >= |idParts| then
      IndexOutOfBounds(stop)
    else
      Constructed(Id(PartAfter(idParts, 0, stop), PartAfter(idParts, 1, stop),
                     PartAfter(idParts, 2, stop), None, stop == 3))
  }

  /** The string constructor as the Java code runs it: a loop over the three
      parts that catches only the parse failure. */
  method ParseId(encodingString: string) returns (r: ParseOutcome)
    ensures r == FromString(encodingString)
  {
    var idParts := JavaSplit.Split(encodingString, 3);
    var part1: Long, part2: Long, part3: Long := 0, 0, 0;
    var isValid := true;
    var part := 0;
    while part < 3
      invariant part <= StopIndex(idParts)
      invariant isValid
      invariant part1 == PartAfter(idParts, 0, part)
      invariant part2 == PartAfter(idParts, 1, part)
      invariant part3 == PartAfter(idParts, 2, part)
    {
      if part >= |idParts| {
        return IndexOutOfBounds(part);
      }
      var parsed := JavaLong.ParseLong(idParts[part]);
      if parsed.None? {
        isValid := false;
        break;
      }
      if part == 0 {
        part1 := parsed.value;
      } else if part == 1 {
        part2 := parsed.value;
      } else {
        part3 := parsed.value;
      }
      part := part + 1;
    }
    r := Constructed(Id(part1, part2, part3, None, isValid));
  }

  // ---------------------------------------------------------------------------
  // Text encoding

  /** `toString()`: the three parts in decimal, separated by dots. Splitting
      the text at its first two dots gives the three decimals back. */
  function ToString(id: Id): (s: string)
    ensures JavaSplit.Split(s, 3)
      == [JavaLong.ToString(id.part1), JavaLong.ToString(id.part2), JavaLong.ToString(id.part3)]
  {
    var a, b, c := JavaLong.ToString(id.part1), JavaLong.ToString(id.part2), JavaLong.ToString(id.part3);
    JavaSplit.SplitThree(a, b, c);
    a + "." + b + "." + c
  }

  /** The cache holds nothing, or the text of the current parts. Every `Id`
      the constructors and `Encode` produce is coherent. */
  predicate CacheCoherent(id: Id) {
    id.encoding.Some? ==> id.encoding.value == ToString(id)
  }

  /** `encode()`: the cached text if present, otherwise `toString()`, which is
      stored in the cache. Returns the text and the object afterwards. */
  function Encode(id: Id): (r: (string, Id))
    ensures r.1 == id.(encoding := Some(r.0))
    ensures id.encoding.Some? ==> r.0 == id.encoding.value
    ensures CacheCoherent(id) ==> r.0 == ToString(id) && CacheCoherent(r.1)
  {
    if id.encoding.None? then
      var s := ToString(id);
      (s, id.(encoding := Some(s)))
    else
      (id.encoding.value, id)
  }

  // ---------------------------------------------------------------------------
  // Equality, hash, wire form

  /** `equals`: the three parts match; cache and flag play no part. Equal
      identifiers have the same wire form and the same hash. */
  predicate Equals(a: Id, b: Id): (r: bool)
    ensures r <==> Transform(a) == Transform(b)
    ensures r ==> HashCode(a) == HashCode(b)
  {
    a.part1 == b.part1 && a.part2 == b.part2 && a.part3 == b.part3
  }

  /** `hashCode()`: `result = 31 * result + fold(part)` over the three parts in
      32-bit arithmetic; equal to the polynomial in the folded parts wrapped
      once to 32 bits. */
  function HashCode(id: Id): (h: JavaInt.Int)
    ensures h == HashOfFolds(JavaLong.LongHash(id.part1), JavaLong.LongHash(id.part2), JavaLong.LongHash(id.part3))
  {
    var result := JavaLong.LongHash(id.part1);
    var result := JavaInt.Wrap(31 * result + JavaLong.LongHash(id.part2));
    var result := JavaInt.Wrap(31 * result + JavaLong.LongHash(id.part3));
    HashFolds(JavaLong.LongHash(id.part1), JavaLong.LongHash(id.part2), JavaLong.LongHash(id.part3));
    result
  }

  /** The hash as one polynomial in the folded parts, wrapped once. */
  function HashOfFolds(h1: int, h2: int, h3: int): JavaInt.Int {
    JavaInt.Wrap(961 * h1 + 31 * h2 + h3)
  }

  /** The loop of `hashCode()`, wrapping after each step, computes
      `HashOfFolds`. */
  lemma HashFolds(h1: int, h2: int, h3: int)
    ensures JavaInt.Wrap(31 * JavaInt.Wrap(31 * h1 + h2) + h3) == HashOfFolds(h1, h2, h3)
  {
    JavaInt.WrapMulAdd(31 * h1 + h2, h3);
    assert 31 * (31 * h1 + h2) + h3 == 961 * h1 + 31 * h2 + h3;
  }

  /** `transform()`: the parts for the wire message, in field order. Building
      an identifier from them gives back `id` up to its cache and flag. */
  function Transform(id: Id): (r: seq<Long>)
    ensures |r| == 3 && FromParts(r[0], r[1], r[2]) == id.(encoding := None, isValid := true)
  {
    [id.part1, id.part2, id.part3]
  }
}
