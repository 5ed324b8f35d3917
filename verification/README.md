# ID: the agent's trace and segment identifier, in Dafny

This project models `ID`, the identifier the agent gives to traces and
segments. An `ID` holds three `long` parts:

- `part1`, the application instance;
- `part2`, the thread;
- `part3`, a timestamp times 10000 plus a per-thread sequence number.

Alongside the parts it keeps a lazily filled cache of its text form
`part1.part2.part3` and a validity flag.

The model covers these operations:

- both constructors, from three parts and from text;
- `encode()` with its cache, and `toString()`;
- `equals` and `hashCode`;
- the `isValid()` flag;
- `transform()`, which gives the parts for the wire message.

Java's own pieces that the class relies on are modelled as well, in their own modules:

- `String.split("\\.", 3)`;
- `Long.parseLong` and `Long.toString`;
- the `(int)(x ^ (x >>> 32))` fold of a `long`;
- 32-bit `int` wrap-around.

Layout:

| file | module | contents |
|---|---|---|
| wrappers.dfy | Wrappers | `Option` |
| java_int.dfy | JavaInt | 32-bit `int` range and wrap-around |
| java_long.dfy | JavaLong | `long` range, decimal rendering, `parseLong`, the hash fold |
| java_split.dfy | JavaSplit | `split` on '.' with a limit, its description and uniqueness |
| id.dfy | Ids | the `ID` value and its operations |
| id_properties.dfy | IdProperties | round trips, parse outcomes, the cache, equality and hash |

The string constructor has three outcomes:

- **Valid.** All three tokens parse, and the result is a valid `ID`.
- **Invalid.** A token fails to parse before the tokens run out. The result is an `ID` with `isValid` false. Parts before the failing token keep their parsed values, and later parts stay 0.
- **Exception.** Fewer than three tokens exist and every present token parses. The loop then reads past the end of the array and an `ArrayIndexOutOfBoundsException` escapes the constructor. `Ids.ParseOutcome` has a separate case for this.

Only `NumberFormatException` is caught (ID.java line 76), so "5.6" and "7" make the constructor throw `ArrayIndexOutOfBoundsException`, at index 2 and 1.

## Model

| member | source | states |
|---|---|---|
| Ids.FromParts | apm-sniffer/apm-agent-core/src/main/java/org/skywalking/apm/agent/core/context/ids/ID.java:56-62 | the parts are stored verbatim, the object is valid and the cache is empty |
| Ids.FromString | apm-sniffer/apm-agent-core/src/main/java/org/skywalking/apm/agent/core/context/ids/ID.java:64-81 | a constructed object has an empty cache; an escaping out-of-bounds read is at an index below 3 |
| Ids.FromTokens | apm-sniffer/apm-agent-core/src/main/java/org/skywalking/apm/agent/core/context/ids/ID.java:66-80 | the constructor's loop over the split tokens: a constructed object has an empty cache, a failing read is at an index below 3 |
| Ids.StopIndex | apm-sniffer/apm-agent-core/src/main/java/org/skywalking/apm/agent/core/context/ids/ID.java:67-79 | the loop leaves at the first part whose token is missing or fails to parse, and every earlier token parses |
| Ids.ParseId | apm-sniffer/apm-agent-core/src/main/java/org/skywalking/apm/agent/core/context/ids/ID.java:64-81 | the imperative loop, which catches only the parse failure and breaks, computes the same outcome as `FromString` |
| Ids.Encode | apm-sniffer/apm-agent-core/src/main/java/org/skywalking/apm/agent/core/context/ids/ID.java:83-88 | the only change to the object is the cache being filled; a filled cache is returned unchanged; with a coherent cache the result is the text of the parts and the cache stays coherent |
| Ids.HashCode | apm-sniffer/apm-agent-core/src/main/java/org/skywalking/apm/agent/core/context/ids/ID.java:109-114 | the three-step `31 * result + fold` loop, wrapped to 32 bits at each step, equals the polynomial `961*h1 + 31*h2 + h3` in the folded parts wrapped once |
| Ids.HashFolds | apm-sniffer/apm-agent-core/src/main/java/org/skywalking/apm/agent/core/context/ids/ID.java:110-112 | wrapping after each step of the hash loop gives the same `int` as wrapping once at the end |
| Ids.ToString | apm-sniffer/apm-agent-core/src/main/java/org/skywalking/apm/agent/core/context/ids/ID.java:90-92 | splitting the text at its first two dots gives the decimal texts of the three parts |
| Ids.Equals | apm-sniffer/apm-agent-core/src/main/java/org/skywalking/apm/agent/core/context/ids/ID.java:94-107 | two objects are equal exactly when their `transform()` parts agree, and equal objects have equal hash codes |
| Ids.Transform | apm-sniffer/apm-agent-core/src/main/java/org/skywalking/apm/agent/core/context/ids/ID.java:120-122 | three parts which, given to the parts constructor, rebuild the object up to its cache and validity flag |
| IdProperties.ParseToString | apm-sniffer/apm-agent-core/src/main/java/org/skywalking/apm/agent/core/context/ids/ID.java:64-92 | parsing the text of any `ID` constructs a valid `ID` with the same parts and an empty cache |
| IdProperties.RoundTrip | apm-sniffer/apm-agent-core/src/main/java/org/skywalking/apm/agent/core/context/ids/ID.java:56-92 | text of the parts constructor, read back by the string constructor, gives the same object |
| IdProperties.EncodeRoundTrip | apm-sniffer/apm-agent-core/src/main/java/org/skywalking/apm/agent/core/context/ids/ID.java:64-92 | reading back what `encode()` returns gives an `ID` with the same parts |
| IdProperties.ValidParseShape | apm-sniffer/apm-agent-core/src/main/java/org/skywalking/apm/agent/core/context/ids/ID.java:64-81 | a valid parse means the split gave three tokens, the text is those tokens joined by dots, and the parts are their parsed values |
| IdProperties.RenderIffCanonical | apm-sniffer/apm-agent-core/src/main/java/org/skywalking/apm/agent/core/context/ids/ID.java:90-92 | rendering three parsed tokens gives back the original text exactly when each token is canonical decimal |
| IdProperties.ToStringOfParsed | apm-sniffer/apm-agent-core/src/main/java/org/skywalking/apm/agent/core/context/ids/ID.java:64-92 | for a valid parse, the `toString()` of the result equals the input text if and only if all three tokens are canonical (no '+', no leading zeros, no "-0") |
| IdProperties.FromTokensValid | apm-sniffer/apm-agent-core/src/main/java/org/skywalking/apm/agent/core/context/ids/ID.java:66-80 | the loop yields a valid object if and only if the first three tokens exist and parse, and then the parts are their values |
| IdProperties.FromStringValid | apm-sniffer/apm-agent-core/src/main/java/org/skywalking/apm/agent/core/context/ids/ID.java:64-81 | the text gives a valid `ID` if and only if it splits into three tokens that all parse, and then the parts are their values |
| IdProperties.FromTokensStopsAt | apm-sniffer/apm-agent-core/src/main/java/org/skywalking/apm/agent/core/context/ids/ID.java:67-79 | when token k (k < 3) is present and fails to parse after parsable ones, the object is invalid, parts before k are parsed and later parts are 0 |
| IdProperties.FromStringStopsAt | apm-sniffer/apm-agent-core/src/main/java/org/skywalking/apm/agent/core/context/ids/ID.java:64-81 | the same partial-failure rule stated on the input text |
| IdProperties.FromTokensThrows | apm-sniffer/apm-agent-core/src/main/java/org/skywalking/apm/agent/core/context/ids/ID.java:67-75 | the loop throws if and only if fewer than three tokens exist and all of them parse, and the failing index is the token count |
| IdProperties.FromStringThrows | apm-sniffer/apm-agent-core/src/main/java/org/skywalking/apm/agent/core/context/ids/ID.java:64-81 | the text makes the constructor throw if and only if it splits into fewer than three tokens that all parse, at index equal to the token count |
| IdProperties.ParseBadChar | apm-sniffer/apm-agent-core/src/main/java/org/skywalking/apm/agent/core/context/ids/ID.java:70-76 | a token holding a character that is neither a digit nor a sign is rejected by `parseLong` |
| IdProperties.ThirdTokenFails | apm-sniffer/apm-agent-core/src/main/java/org/skywalking/apm/agent/core/context/ids/ID.java:64-81 | when the first two tokens parse and the third does not, both parts are kept, part3 is 0 and the object is invalid |
| IdProperties.ExtraDotInvalid | apm-sniffer/apm-agent-core/src/main/java/org/skywalking/apm/agent/core/context/ids/ID.java:64-81 | for any two tokens that parse followed by a third that still holds a dot (as in "1.2.3.4"), the object is invalid with the first two parts kept and part3 0 |
| IdProperties.BadMiddleInvalid | apm-sniffer/apm-agent-core/src/main/java/org/skywalking/apm/agent/core/context/ids/ID.java:64-81 | for any first token that parses and a dot-free second token that does not (as in "12.abc.99"), part1 is kept, the rest are 0 and the object is invalid, whatever follows |
| IdProperties.TooFewTokensThrow | apm-sniffer/apm-agent-core/src/main/java/org/skywalking/apm/agent/core/context/ids/ID.java:64-81 | for any two tokens that parse, "a.b" makes the constructor throw at index 2 and "a" alone at index 1 |
| IdProperties.FailsBeforeMissing | apm-sniffer/apm-agent-core/src/main/java/org/skywalking/apm/agent/core/context/ids/ID.java:64-81 | when the first token is dot-free and fails to parse, the result is an invalid all-zero object, not an exception, whether the text ends there or goes on after a dot with anything; the empty text is such a case |
| IdProperties.ExampleExtraDot | apm-sniffer/apm-agent-core/src/main/java/org/skywalking/apm/agent/core/context/ids/ID.java:64-81 | "1.2.3.4" gives parts (1, 2, 0) and is invalid |
| IdProperties.ExampleBadMiddle | apm-sniffer/apm-agent-core/src/main/java/org/skywalking/apm/agent/core/context/ids/ID.java:64-81 | "12.abc.99" gives parts (12, 0, 0) and is invalid |
| IdProperties.ExampleTooFewTokens | apm-sniffer/apm-agent-core/src/main/java/org/skywalking/apm/agent/core/context/ids/ID.java:64-81 | "5.6" throws at index 2, and "7" throws at index 1 |
| IdProperties.ExampleFailsBeforeMissing | apm-sniffer/apm-agent-core/src/main/java/org/skywalking/apm/agent/core/context/ids/ID.java:64-81 | "x.1" and "" give an invalid all-zero object |
| IdProperties.ExampleEncodingText | apm-sniffer/apm-agent-core/src/main/java/org/skywalking/apm/agent/core/context/ids/ID.java:44-49 | the parts 12, 35 and 15127007074950000 are rendered as the documented "12.35.15127007074950000" |
| IdProperties.EncodeTwice | apm-sniffer/apm-agent-core/src/main/java/org/skywalking/apm/agent/core/context/ids/ID.java:83-88 | a second `encode()` returns the same text and leaves the object as the first call left it |
| IdProperties.EqualsIsEquivalence | apm-sniffer/apm-agent-core/src/main/java/org/skywalking/apm/agent/core/context/ids/ID.java:94-107 | `equals` is reflexive, symmetric and transitive |
| IdProperties.AuxiliaryStateIgnored | apm-sniffer/apm-agent-core/src/main/java/org/skywalking/apm/agent/core/context/ids/ID.java:94-107 | the cache and the validity flag play no part in equality |
| IdProperties.HashOfSmallParts | apm-sniffer/apm-agent-core/src/main/java/org/skywalking/apm/agent/core/context/ids/ID.java:109-114 | for parts in the non-negative `int` range the hash is `961*a + 31*b + c` wrapped to 32 bits |
| IdProperties.ExampleHash | apm-sniffer/apm-agent-core/src/main/java/org/skywalking/apm/agent/core/context/ids/ID.java:109-114 | the parts (1, 2, 3) hash to 1026 |
| JavaLong.ToString | apm-sniffer/apm-agent-core/src/main/java/org/skywalking/apm/agent/core/context/ids/ID.java:90-92 | the decimal text of a `long` is canonical and holds no '.' |
| JavaLong.ParseToString | apm-sniffer/apm-agent-core/src/main/java/org/skywalking/apm/agent/core/context/ids/ID.java:70-74 | `parseLong` reads back the decimal text of every `long` |
| JavaLong.ToStringParse | apm-sniffer/apm-agent-core/src/main/java/org/skywalking/apm/agent/core/context/ids/ID.java:70-74 | rendering a parsed value reproduces the token exactly when the token is canonical |
| JavaLong.ParseLong | apm-sniffer/apm-agent-core/src/main/java/org/skywalking/apm/agent/core/context/ids/ID.java:70-78 | `parseLong` succeeds exactly when the text is not empty and not a lone sign, every character is a digit except an optional leading sign, and the signed value fits a `long`; the result is that signed value |
| JavaLong.LongHashOfInt | apm-sniffer/apm-agent-core/src/main/java/org/skywalking/apm/agent/core/context/ids/ID.java:110-112 | the fold `(int)(x ^ (x >>> 32))` of a `long` in the `int` range is `x` when non-negative and `-x - 1` when negative |
| JavaLong.XorBits | apm-sniffer/apm-agent-core/src/main/java/org/skywalking/apm/agent/core/context/ids/ID.java:110-112 | the result is below 2^n and each of its bits i < n is the exclusive or of bits i of the two operands, as Java's `^` gives on the low n bits |
| JavaLong.LongHash | apm-sniffer/apm-agent-core/src/main/java/org/skywalking/apm/agent/core/context/ids/ID.java:110-112 | bit i (i < 32) of the fold `(int)(x ^ (x >>> 32))`, in two's complement, is the exclusive or of bits i and i + 32 of the 64-bit pattern of x |
| JavaLong.IntOfBits | apm-sniffer/apm-agent-core/src/main/java/org/skywalking/apm/agent/core/context/ids/ID.java:110-112 | an `int` is determined by its 32 bits, so the contract of the fold fixes its value for every `long` |
| JavaLong.XorBitsZero | apm-sniffer/apm-agent-core/src/main/java/org/skywalking/apm/agent/core/context/ids/ID.java:110-112 | xor with zero keeps the low bits |
| JavaLong.XorBitsOnes | apm-sniffer/apm-agent-core/src/main/java/org/skywalking/apm/agent/core/context/ids/ID.java:110-112 | xor with all ones complements the low bits |
| JavaInt.Wrap | apm-sniffer/apm-agent-core/src/main/java/org/skywalking/apm/agent/core/context/ids/ID.java:110-113 | the `int` result is congruent to the exact value modulo 2^32, and equals it when it is in range |
| JavaInt.WrapMulAdd | apm-sniffer/apm-agent-core/src/main/java/org/skywalking/apm/agent/core/context/ids/ID.java:111-112 | wrapping the accumulator before `31 * result + h` does not change the wrapped result |
| JavaSplit.Split | apm-sniffer/apm-agent-core/src/main/java/org/skywalking/apm/agent/core/context/ids/ID.java:65 | the split has between one and `limit` tokens |
| JavaSplit.SplitIsSplit | apm-sniffer/apm-agent-core/src/main/java/org/skywalking/apm/agent/core/context/ids/ID.java:65 | the tokens are dot-free except the last, which is dot-free unless the limit was reached, and joined with '.' they give back the input |
| JavaSplit.SplitUnique | apm-sniffer/apm-agent-core/src/main/java/org/skywalking/apm/agent/core/context/ids/ID.java:65 | any tokens meeting that description are the ones `split` returns |
| JavaSplit.SplitThree | apm-sniffer/apm-agent-core/src/main/java/org/skywalking/apm/agent/core/context/ids/ID.java:65 | text with two dot-free tokens before the second dot splits into those two and the rest |

## Left out

- `transform()` builds a protobuf `UniqueId` message. `Ids.Transform` returns the sequence of parts that the builder is given; the message classes are not part of this model.
- The layout of `part3` (timestamp times 10000 plus a sequence number) is produced by the global id generator. That generator is not part of this model, so no layout is imposed on the parts.
- The `encode()` cache is a mutable field written without synchronisation. `Ids.Encode` returns the text together with the updated object. Concurrent callers are not modelled.
- `equals` also checks object identity, `null` and `getClass()`. `Ids.Equals` compares two `ID` values only; subclasses and foreign objects are not modelled.
- `JavaLong.ParseLong` accepts ASCII digits only. `Long.parseLong` also accepts digits of other Unicode scripts; such tokens are outside the model.
- A `null` text passed to the string constructor throws `NullPointerException`. Dafny strings cannot be null, so this case does not arise in the model.
- `isValid()` is the `isValid` field of `Ids.Id`, so it has no separate member.
