/** Java's `String.split("\\.", limit)` for a positive limit: the string is cut
    at its first `limit - 1` dots, the remainder (dots included) is the last
    token, and empty tokens are kept. A string with no dot is one token. */
module JavaSplit {

  /** Index of the first '.' of a string that has one. */
  function FirstDot(s: string): (i: nat)
    requires '.' in s
    ensures i < |s| && s[i] == '.'
    ensures forall j :: 0 <= j < i ==> s[j] != '.'
  {
    if s[0] == '.' then 0
    else
      assert '.' in s[1..] by {
        var j :| 0 <= j < |s| && s[j] == '.';
        assert s[1..][j - 1] == '.';
      }
      FirstDot(s[1..]) + 1
  }

  /** `s.split("\\.", limit)` with `limit >= 1`. */
  function Split(s: string, limit: nat): (tokens: seq<string>)
    requires limit >= 1
    ensures 1 <= |tokens| <= limit
    decreases limit
  {
    if limit == 1 || '.' !in s then [s]
    else
      var i := FirstDot(s);
      [s[..i]] + Split(s[i + 1..], limit - 1)
  }

  /** The tokens glued back together with '.' between neighbours. */
  function Join(tokens: seq<string>): string
    requires |tokens| >= 1
  {
    if |tokens| == 1 then tokens[0] else tokens[0] + "." + Join(tokens[1..])
  }

  /** The shape of a split with the given limit: between one and `limit`
      tokens, every token but the last dot-free, and the last dot-free too
      unless the limit was reached. Stated token by token from the front. */
  ghost predicate SplitShape(tokens: seq<string>, limit: nat)
    decreases |tokens|
  {
    && 1 <= |tokens| <= limit
    && (|tokens| == 1 ==> (limit > 1 ==> '.' !in tokens[0]))
    && (|tokens| > 1 ==> '.' !in tokens[0] && SplitShape(tokens[1..], limit - 1))
  }

  /** In a split's shape every token but the last is dot-free, and so is
      the last one when the limit was not reached. */
  lemma {:induction false} ShapeDotFree(tokens: seq<string>, limit: nat, k: nat)
    requires SplitShape(tokens, limit) && k < |tokens|
    requires k < |tokens| - 1 || |tokens| < limit
    ensures '.' !in tokens[k]
    decreases k
  {
    if k > 0 {
      ShapeDotFree(tokens[1..], limit - 1, k - 1);
      assert tokens[1..][k - 1] == tokens[k];
    }
  }

  /** What it means for `tokens` to be the split of `s`: they have the shape
      of a split and glued back together they give `s`. */
  ghost predicate IsSplitOf(tokens: seq<string>, s: string, limit: nat) {
    SplitShape(tokens, limit) && Join(tokens) == s
  }

  /** The first dot of `a + "." + b` is the one after `a` when `a` has none. */
  lemma FirstDotOfJoin(a: string, b: string)
    requires '.' !in a
    ensures '.' in a + "." + b
    ensures FirstDot(a + "." + b) == |a|
    ensures (a + "." + b)[..|a|] == a && (a + "." + b)[|a| + 1..] == b
  {
    var s := a + "." + b;
    assert s[|a|] == '.';
  }

  /** Joining a token in front of others puts a dot after it. */
  lemma JoinCons(head: string, rest: seq<string>)
    requires |rest| >= 1
    ensures Join([head] + rest) == head + "." + Join(rest)
  {
    assert ([head] + rest)[1..] == rest;
  }

  /** A dot-free token in front of a split's tokens has the shape of a split
      with one cut more. */
  lemma ShapeCons(head: string, rest: seq<string>, limit: nat)
    requires '.' !in head && limit >= 2 && SplitShape(rest, limit - 1)
    ensures SplitShape([head] + rest, limit)
  {
    assert ([head] + rest)[1..] == rest;
  }

  /** A string is the text before its first dot, the dot, and the rest. */
  lemma AroundFirstDot(s: string)
    requires '.' in s
    ensures var i := FirstDot(s); s == s[..i] + "." + s[i + 1..] && '.' !in s[..i]
  {
    var i := FirstDot(s);
    assert s == s[..i] + [s[i]] + s[i + 1..];
  }

  /** `Split` meets its description. */
  lemma {:induction false} SplitIsSplit(s: string, limit: nat)
    requires limit >= 1
    ensures IsSplitOf(Split(s, limit), s, limit)
    decreases limit
  {
    if limit == 1 || '.' !in s {
      assert Split(s, limit) == [s];
    } else {
      var i := FirstDot(s);
      var head, tail := s[..i], s[i + 1..];
      AroundFirstDot(s);
      var rest := Split(tail, limit - 1);
      SplitIsSplit(tail, limit - 1);
      assert Split(s, limit) == [head] + rest;
      JoinCons(head, rest);
      assert Join([head] + rest) == s;
      ShapeCons(head, rest, limit);
      assert IsSplitOf([head] + rest, s, limit);
    }
  }

  /** A split into one token is the whole string. */
  lemma SplitWhole(tokens: seq<string>, s: string, limit: nat)
    requires IsSplitOf(tokens, s, limit) && |tokens| == 1
    ensures Split(s, limit) == tokens
  {
    var t := tokens[0];
    assert s == t;
    assert limit == 1 || '.' !in t;
    assert tokens == [t];
  }

  /** Splitting `a + "." + b`, with `a` dot-free, cuts off `a` and splits `b`
      with one cut fewer. */
  lemma SplitCons(a: string, b: string, limit: nat)
    requires '.' !in a && limit >= 2
    ensures Split(a + "." + b, limit) == [a] + Split(b, limit - 1)
  {
    FirstDotOfJoin(a, b);
  }

  /** Dropping the first of several tokens of a split's shape leaves the
      shape of a split with one cut fewer. */
  lemma ShapeTail(tokens: seq<string>, limit: nat)
    requires SplitShape(tokens, limit) && |tokens| >= 2
    ensures SplitShape(tokens[1..], limit - 1)
  {
  }

  /** Tokens of the right shape are what splitting their join gives back. */
  lemma {:induction false} SplitJoin(tokens: seq<string>, limit: nat)
    requires SplitShape(tokens, limit)
    ensures Split(Join(tokens), limit) == tokens
    decreases limit, 1
  {
    if |tokens| == 1 {
      SplitWhole(tokens, Join(tokens), limit);
    } else {
      ShapeTail(tokens, limit);
      SplitJoinCons(tokens[0], tokens[1..], limit);
      assert [tokens[0]] + tokens[1..] == tokens;
    }
  }

  /** `SplitJoin` for a dot-free token in front of a split's tokens. */
  lemma {:induction false} SplitJoinCons(head: string, rest: seq<string>, limit: nat)
    requires '.' !in head && limit >= 2 && SplitShape(rest, limit - 1)
    ensures Split(Join([head] + rest), limit) == [head] + rest
    decreases limit, 0
  {
    SplitJoin(rest, limit - 1);
    SplitJoinedCons(head, rest, limit);
  }

  /** Splitting the join of a dot-free token in front of others cuts off
      that token. */
  lemma SplitJoinedCons(head: string, rest: seq<string>, limit: nat)
    requires '.' !in head && limit >= 2 && |rest| >= 1
    ensures Split(Join([head] + rest), limit) == [head] + Split(Join(rest), limit - 1)
  {
    JoinCons(head, rest);
    SplitCons(head, Join(rest), limit);
  }

  /** The description determines the split: any tokens meeting it are the
      ones `Split` returns. */
  lemma SplitUnique(tokens: seq<string>, s: string, limit: nat)
    requires IsSplitOf(tokens, s, limit)
    ensures Split(s, limit) == tokens
  {
    SplitJoin(tokens, limit);
  }

  /** Joining three tokens puts a dot between neighbours. */
  lemma Join3(a: string, b: string, c: string)
    ensures Join([a, b, c]) == a + "." + b + "." + c
  {
    var t := [a, b, c];
    assert t[1..] == [b, c] && [b, c][1..] == [c];
    assert Join([b, c]) == b + "." + c;
    assert Join(t) == a + "." + (b + "." + c);
    assert a + "." + (b + "." + c) == a + "." + b + "." + c;
  }

  /** Splitting text with at least two dots, the first two ending dot-free
      tokens `a` and `b`, gives `a`, `b` and the rest. */
  lemma SplitThree(a: string, b: string, c: string)
    requires '.' !in a && '.' !in b
    ensures Split(a + "." + b + "." + c, 3) == [a, b, c]
  {
    Join3(a, b, c);
    SplitUnique([a, b, c], a + "." + b + "." + c, 3);
  }

  /** Text with exactly one dot splits into two tokens. */
  lemma SplitTwo(a: string, b: string)
    requires '.' !in a && '.' !in b
    ensures Split(a + "." + b, 3) == [a, b]
  {
    var t := [a, b];
    assert t[1..] == [b];
    SplitUnique(t, a + "." + b, 3);
  }

  /** Text without a dot is a single token. */
  lemma SplitOne(a: string)
    requires '.' !in a
    ensures Split(a, 3) == [a]
  {
  }
}
