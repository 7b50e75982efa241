/**
The wildcard dialect of stored schema grants (section 15.7.1.6 of the MySQL 8.4
Reference Manual): `%` stands for any run of characters, `_` for exactly one, and a
backslash takes the next character literally. Patterns and names are sequences of
characters, as they are after the program's rune conversion.
*/
module Wildcards {

  /** One element of a pattern, once escapes are resolved. */
  datatype Token = AnyRun | AnyOne | Literal(c: char)

  /** Reads a pattern left to right. A backslash that ends the pattern is literal. */
  function Tokens(pattern: string): seq<Token> {
    if pattern == "" then
      []
    else if pattern[0] == '%' then
      [AnyRun] + Tokens(pattern[1..])
    else if pattern[0] == '\\' && |pattern| > 1 then
      [Literal(pattern[1])] + Tokens(pattern[2..])
    else if pattern[0] == '_' then
      [AnyOne] + Tokens(pattern[1..])
    else
      [Literal(pattern[0])] + Tokens(pattern[1..])
  }

  /** What a token list means, with every way of splitting the name allowed. */
  predicate Denotes(tokens: seq<Token>, name: string) {
    if tokens == [] then
      name == ""
    else
      match tokens[0]
      case AnyRun => exists k :: 0 <= k <= |name| && Denotes(tokens[1..], name[k..])
      case AnyOne => name != "" && Denotes(tokens[1..], name[1..])
      case Literal(c) => name != "" && name[0] == c && Denotes(tokens[1..], name[1..])
  }

  /** The meaning of a pattern as it is stored. */
  predicate Covers(pattern: string, name: string) {
    Denotes(Tokens(pattern), name)
  }

  /** The dialect, one pattern character at a time; `rest` is the pattern after it. */
  lemma CoversByCharacter(c: char, rest: string, name: string)
    ensures Covers("", name) <==> name == ""
    ensures Covers("%" + rest, name) <==> exists k :: 0 <= k <= |name| && Covers(rest, name[k..])
    ensures Covers("_" + rest, name) <==> name != "" && Covers(rest, name[1..])
    ensures Covers(['\\', c] + rest, name) <==> name != "" && name[0] == c && Covers(rest, name[1..])
    ensures c != '%' && c != '_' && c != '\\' ==>
              (Covers([c] + rest, name) <==> name != "" && name[0] == c && Covers(rest, name[1..]))
  {
    assert ("%" + rest)[1..] == rest && ("_" + rest)[1..] == rest && ([c] + rest)[1..] == rest;
    assert (['\\', c] + rest)[2..] == rest;
    assert ([AnyRun] + Tokens(rest))[1..] == Tokens(rest);
    assert Tokens("%" + rest) == [AnyRun] + Tokens(rest);
  }

  /** A backslash with nothing after it stands for itself. */
  lemma LoneBackslash(name: string)
    ensures Covers("\\", name) <==> name == "\\"
  {
    var only := [Literal('\\')];
    assert "\\"[1..] == "" && only[1..] == [];
    assert Tokens("\\") == only + Tokens("") == only;
    if name != "" {
      assert Denotes(only[1..], name[1..]) <==> name[1..] == "";
    }
    assert name != "" ==> name == [name[0]] + name[1..];
  }

  // A run of tokens without `%` consumes one character per token.

  predicate Fixed(tokens: seq<Token>) {
    forall i :: 0 <= i < |tokens| ==> !tokens[i].AnyRun?
  }

  predicate Accepts(token: Token, c: char) {
    match token
    case AnyRun => false
    case AnyOne => true
    case Literal(l) => l == c
  }

  predicate FixedCovers(tokens: seq<Token>, name: string) {
    |tokens| == |name| && forall i :: 0 <= i < |tokens| ==> Accepts(tokens[i], name[i])
  }

  lemma {:induction false} FixedPrefix(fixed: seq<Token>, rest: seq<Token>, name: string)
    requires Fixed(fixed)
    ensures Denotes(fixed + rest, name) <==>
            |fixed| <= |name| && FixedCovers(fixed, name[..|fixed|]) && Denotes(rest, name[|fixed|..])
  {
    if fixed == [] {
      assert fixed + rest == rest;
      assert name[|fixed|..] == name;
    } else {
      assert (fixed + rest)[1..] == fixed[1..] + rest;
      if name != "" {
        FixedPrefix(fixed[1..], rest, name[1..]);
        if |fixed| <= |name| {
          assert name[1..][|fixed| - 1..] == name[|fixed|..];
          var head := name[..|fixed|];
          assert name[1..][..|fixed| - 1] == head[1..];
          if FixedCovers(fixed[1..], head[1..]) && Accepts(fixed[0], name[0]) {
            forall i | 0 <= i < |fixed|
              ensures Accepts(fixed[i], head[i])
            {
              if i > 0 {
                assert fixed[i] == fixed[1..][i - 1] && head[i] == head[1..][i - 1];
              }
            }
          }
          if FixedCovers(fixed, head) {
            assert Accepts(fixed[0], head[0]);
            forall i | 0 <= i < |fixed| - 1
              ensures Accepts(fixed[1..][i], head[1..][i])
            {
              assert Accepts(fixed[i + 1], head[i + 1]);
            }
          }
        }
      }
    }
  }

  /** What `%` followed by `rest` covers from some position on, it covers from any earlier position. */
  lemma RunAbsorbs(rest: seq<Token>, name: string, from: nat, later: nat)
    requires from <= later <= |name|
    requires Denotes([AnyRun] + rest, name[later..])
    ensures Denotes([AnyRun] + rest, name[from..])
  {
    assert ([AnyRun] + rest)[1..] == rest;
    var k :| 0 <= k <= |name[later..]| && Denotes(rest, name[later..][k..]);
    assert name[later..][k..] == name[from..][later - from + k..];
  }

  /** `%` followed by `rest` covers a suffix exactly when `rest` covers it now or `%rest` covers a shorter one. */
  lemma RunUnfolds(rest: seq<Token>, name: string, from: nat)
    requires from <= |name|
    ensures Denotes([AnyRun] + rest, name[from..]) <==>
            Denotes(rest, name[from..]) || (from < |name| && Denotes([AnyRun] + rest, name[from + 1..]))
  {
    assert ([AnyRun] + rest)[1..] == rest;
    if Denotes([AnyRun] + rest, name[from..]) {
      var k :| 0 <= k <= |name[from..]| && Denotes(rest, name[from..][k..]);
      if k == 0 {
        assert name[from..][k..] == name[from..];
      } else {
        assert name[from..][k..] == name[from + 1..][k - 1..];
      }
    }
    if Denotes(rest, name[from..]) {
      assert name[from..][0..] == name[from..];
    }
    if from < |name| && Denotes([AnyRun] + rest, name[from + 1..]) {
      RunAbsorbs(rest, name, from, from + 1);
    }
  }

  /**
  The program's state after some steps: `at` characters of the pattern and `reached` of
  the name are consumed. With a last star at `star` (negative: none yet) and its current
  restart point `from`, the whole question is equivalent to `%rest` on the suffix that
  starts at `from`, and the tokens between the star and `at` are `%`-free and cover
  exactly the characters between `from` and `reached`.
  */
  ghost predicate Tracks(pattern: string, name: string, at: nat, reached: nat, star: int, from: nat) {
    && at <= |pattern|
    && from <= reached <= |name|
    && -1 <= star < at
    && (star < 0 ==> from == 0 && Segment(pattern, name, 0, at, 0, reached))
    && (star >= 0 ==>
          && pattern[star] == '%'
          && Segment(pattern, name, star + 1, at, from, reached)
          && (Covers(pattern, name) <==> Denotes([AnyRun] + Tokens(pattern[star + 1..]), name[from..])))
  }

  ghost predicate Segment(pattern: string, name: string, lo: nat, hi: nat, from: nat, to: nat)
    requires lo <= hi <= |pattern| && from <= to <= |name|
  {
    exists fixed: seq<Token> ::
      && Fixed(fixed)
      && Tokens(pattern[lo..]) == fixed + Tokens(pattern[hi..])
      && FixedCovers(fixed, name[from..to])
  }

  /** One more `%`-free token, covering the next character. */
  lemma SegmentExtends(pattern: string, name: string, lo: nat, hi: nat, from: nat, to: nat, token: Token, width: nat)
    requires lo <= hi <= |pattern| && from <= to < |name| && hi + width <= |pattern|
    requires Segment(pattern, name, lo, hi, from, to)
    requires Tokens(pattern[hi..]) == [token] + Tokens(pattern[hi + width..])
    requires Accepts(token, name[to])
    ensures Segment(pattern, name, lo, hi + width, from, to + 1)
  {
    var fixed :| Fixed(fixed) && Tokens(pattern[lo..]) == fixed + Tokens(pattern[hi..])
                 && FixedCovers(fixed, name[from..to]);
    var longer := fixed + [token];
    assert Tokens(pattern[lo..]) == longer + Tokens(pattern[hi + width..]);
    assert name[from..to + 1] == name[from..to] + [name[to]];
    assert FixedCovers(longer, name[from..to + 1]);
  }

  lemma TracksExtends(pattern: string, name: string, at: nat, reached: nat, star: int, from: nat,
                      token: Token, width: nat)
    requires Tracks(pattern, name, at, reached, star, from)
    requires reached < |name| && at + width <= |pattern|
    requires Tokens(pattern[at..]) == [token] + Tokens(pattern[at + width..])
    requires Accepts(token, name[reached])
    ensures Tracks(pattern, name, at + width, reached + 1, star, from)
  {
    SegmentExtends(pattern, name, star + 1, at, from, reached, token, width);
  }

  /** Nothing consumed since a restart. */
  lemma SegmentStarts(pattern: string, name: string, lo: nat, from: nat)
    requires lo <= |pattern| && from <= |name|
    ensures Segment(pattern, name, lo, lo, from, from)
  {
    assert Tokens(pattern[lo..]) == [] + Tokens(pattern[lo..]);
    assert FixedCovers([], name[from..from]);
  }

  /** Across a segment, the two ends ask the same question; a later start needs a later end. */
  lemma SegmentTransfers(pattern: string, name: string, lo: nat, hi: nat, from: nat, to: nat, k: nat)
    requires lo <= hi <= |pattern| && from <= to <= |name| && from <= k <= |name|
    requires Segment(pattern, name, lo, hi, from, to)
    ensures Denotes(Tokens(pattern[lo..]), name[from..]) <==> Denotes(Tokens(pattern[hi..]), name[to..])
    ensures Denotes(Tokens(pattern[lo..]), name[k..]) ==>
              k + (to - from) <= |name| && Denotes(Tokens(pattern[hi..]), name[k + (to - from)..])
  {
    hide Tokens, Denotes, Fixed, Accepts;
    var fixed :| Fixed(fixed) && Tokens(pattern[lo..]) == fixed + Tokens(pattern[hi..])
                 && FixedCovers(fixed, name[from..to]);
    var rest := Tokens(pattern[hi..]);
    FixedPrefix(fixed, rest, name[from..]);
    assert name[from..][..|fixed|] == name[from..to];
    assert name[from..][|fixed|..] == name[to..];
    FixedPrefix(fixed, rest, name[k..]);
    if |fixed| <= |name[k..]| {
      assert name[k..][|fixed|..] == name[k + |fixed|..];
    }
  }

  /** Forgetting the earlier star when a later one is met loses no match. */
  lemma LaterStarSuffices(pattern: string, name: string, at: nat, reached: nat, star: int, from: nat)
    requires at < |pattern| && pattern[at] == '%'
    requires Tracks(pattern, name, at, reached, star, from)
    ensures Covers(pattern, name) <==> Denotes([AnyRun] + Tokens(pattern[at + 1..]), name[reached..])
    ensures Tracks(pattern, name, at + 1, reached, at, reached)
  {
    assert pattern[at..][1..] == pattern[at + 1..];
    var rest := Tokens(pattern[at + 1..]);
    assert Tokens(pattern[at..]) == [AnyRun] + rest;
    if star < 0 {
      SegmentTransfers(pattern, name, 0, at, 0, reached, 0);
      assert pattern[0..] == pattern && name[0..] == name;
    } else {
      var inner := Tokens(pattern[star + 1..]);
      SegmentTransfers(pattern, name, star + 1, at, from, reached, from);
      assert ([AnyRun] + inner)[1..] == inner;
      if Denotes(inner, name[from..]) {
        assert name[from..][0..] == name[from..];
        assert Denotes([AnyRun] + inner, name[from..]);
      }
      if Denotes([AnyRun] + inner, name[from..]) {
        var k :| 0 <= k <= |name[from..]| && Denotes(inner, name[from..][k..]);
        assert name[from..][k..] == name[from + k..];
        SegmentTransfers(pattern, name, star + 1, at, from, reached, from + k);
        RunAbsorbs(rest, name, reached, from + k + (reached - from));
      }
    }
    SegmentStarts(pattern, name, at + 1, reached);
  }

  /** A mismatch before any star settles the question. */
  lemma MismatchWithoutStar(pattern: string, name: string, at: nat, reached: nat)
    requires Tracks(pattern, name, at, reached, -1, 0)
    requires !Denotes(Tokens(pattern[at..]), name[reached..])
    ensures !Covers(pattern, name)
  {
    SegmentTransfers(pattern, name, 0, at, 0, reached, 0);
    assert pattern[0..] == pattern && name[0..] == name;
  }

  /** A mismatch after a star moves that star's restart point by one. */
  lemma MismatchAfterStar(pattern: string, name: string, at: nat, reached: nat, star: nat, from: nat)
    requires reached < |name|
    requires Tracks(pattern, name, at, reached, star, from)
    requires !Denotes(Tokens(pattern[at..]), name[reached..])
    ensures Tracks(pattern, name, star + 1, from + 1, star, from + 1)
  {
    SegmentTransfers(pattern, name, star + 1, at, from, reached, from);
    RunUnfolds(Tokens(pattern[star + 1..]), name, from);
    SegmentStarts(pattern, name, star + 1, from + 1);
  }

  /** Once the name is exhausted no restart can help: the rest of the pattern must cover "". */
  lemma NameExhausted(pattern: string, name: string, at: nat, star: int, from: nat)
    requires Tracks(pattern, name, at, |name|, star, from)
    ensures Covers(pattern, name) <==> Denotes(Tokens(pattern[at..]), "")
  {
    assert name[|name|..] == "";
    if star < 0 {
      SegmentTransfers(pattern, name, 0, at, 0, |name|, 0);
      assert pattern[0..] == pattern && name[0..] == name;
    } else {
      var inner := Tokens(pattern[star + 1..]);
      assert ([AnyRun] + inner)[1..] == inner;
      SegmentTransfers(pattern, name, star + 1, at, from, |name|, from);
      if Denotes(inner, name[from..]) {
        assert name[from..][0..] == name[from..];
        assert Denotes([AnyRun] + inner, name[from..]);
      }
      if Denotes([AnyRun] + inner, name[from..]) {
        var k :| 0 <= k <= |name[from..]| && Denotes(inner, name[from..][k..]);
        assert name[from..][k..] == name[from + k..];
        SegmentTransfers(pattern, name, star + 1, at, from, |name|, from + k);
        assert k == 0;
      }
    }
  }

  /** The first token of a nonempty pattern suffix, and how many characters it takes. */
  lemma NextToken(pattern: string, at: nat, name: string, reached: nat)
    requires at <= |pattern| && reached < |name|
    ensures at == |pattern| ==> !Denotes(Tokens(pattern[at..]), name[reached..])
    ensures at < |pattern| && pattern[at] != '%' ==>
              var escaped := pattern[at] == '\\' && at + 1 < |pattern|;
              var token := if escaped then Literal(pattern[at + 1])
                           else if pattern[at] == '_' then AnyOne
                           else Literal(pattern[at]);
              && Tokens(pattern[at..]) == [token] + Tokens(pattern[at + if escaped then 2 else 1..])
              && (!Accepts(token, name[reached]) ==> !Denotes(Tokens(pattern[at..]), name[reached..]))
  {
    if at < |pattern| {
      assert pattern[at..][1..] == pattern[at + 1..];
      if at + 1 < |pattern| {
        assert pattern[at..][2..] == pattern[at + 2..];
      }
      assert name[reached..][0] == name[reached];
    }
  }

  /** Only `%` tokens cover the empty name. */
  lemma OnlyRunsCoverNothing(pattern: string, at: nat)
    requires at <= |pattern|
    ensures at < |pattern| && pattern[at] == '%' ==>
              (Denotes(Tokens(pattern[at..]), "") <==> Denotes(Tokens(pattern[at + 1..]), ""))
    ensures at < |pattern| && pattern[at] != '%' ==> !Denotes(Tokens(pattern[at..]), "")
    ensures at == |pattern| ==> Denotes(Tokens(pattern[at..]), "")
  {
    if at < |pattern| {
      assert pattern[at..][1..] == pattern[at + 1..];
      if pattern[at] == '%' {
        var rest := Tokens(pattern[at + 1..]);
        assert ([AnyRun] + rest)[1..] == rest;
        if Denotes(rest, "") {
          assert ""[0..] == "";
          assert Denotes([AnyRun] + rest, "");
        }
        if Denotes([AnyRun] + rest, "") {
          var k :| 0 <= k <= |""| && Denotes(rest, ""[k..]);
          assert ""[k..] == "";
        }
      }
    }
  }

  /**
  One comparison of the next token, as the loop makes it: whether it matches, and how
  many pattern characters it takes.
  */
  function Compare(pattern: string, at: nat, c: char): (r: (bool, nat))
    requires at <= |pattern|
    ensures r.0 ==> at < at + r.1 <= |pattern|
  {
    if at == |pattern| then
      (false, 0)
    else if pattern[at] == '\\' && at + 1 < |pattern| then
      (pattern[at + 1] == c, 2)
    else
      (pattern[at] == '_' || pattern[at] == c, 1)
  }

  lemma CompareDecides(pattern: string, name: string, at: nat, reached: nat, star: int, from: nat)
    requires Tracks(pattern, name, at, reached, star, from)
    requires reached < |name|
    requires at < |pattern| ==> pattern[at] != '%'
    ensures var (matched, width) := Compare(pattern, at, name[reached]);
            && (matched ==> Tracks(pattern, name, at + width, reached + 1, star, from))
            && (!matched ==> !Denotes(Tokens(pattern[at..]), name[reached..]))
  {
    NextToken(pattern, at, name, reached);
    var (matched, width) := Compare(pattern, at, name[reached]);
    if matched {
      var token := if pattern[at] == '\\' && at + 1 < |pattern| then Literal(pattern[at + 1])
                   else if pattern[at] == '_' then AnyOne
                   else Literal(pattern[at]);
      TracksExtends(pattern, name, at, reached, star, from, token, width);
    }
  }

  function Budget(pattern: string, name: string): nat {
    (|pattern| + 1) * (|name| + 1)
  }

  /** Steps taken, bounded by where the loop stands: a row of the pattern per restart point. */
  ghost predicate Within(steps: nat, pattern: string, from: nat, at: nat) {
    steps <= from * (|pattern| + 1) + at
  }

  lemma WithinAdvances(steps: nat, pattern: string, from: nat, at: nat, from': nat, at': nat)
    requires Within(steps, pattern, from, at)
    requires at <= |pattern|
    requires from < from' || (from == from' && at < at')
    ensures Within(steps + 1, pattern, from', at')
  {
    if from < from' {
      Multiply(from + 1, from', |pattern| + 1);
      assert (from + 1) * (|pattern| + 1) == from * (|pattern| + 1) + |pattern| + 1;
    }
  }

  lemma WithinStar(steps: nat, pattern: string, from: nat, at: nat, from': nat)
    requires Within(steps, pattern, from, at)
    requires from <= from'
    ensures Within(steps + 1, pattern, from', at + 1)
  {
    Multiply(from, from', |pattern| + 1);
  }

  lemma WithinTotal(steps: nat, pattern: string, name: string, from: nat, at: nat)
    requires Within(steps, pattern, from, at)
    requires from <= |name| && at <= |pattern|
    ensures steps < Budget(pattern, name)
  {
    Multiply(from, |name|, |pattern| + 1);
    assert (|pattern| + 1) * (|name| + 1) == |name| * (|pattern| + 1) + |pattern| + 1;
  }

  lemma Multiply(a: nat, b: nat, width: nat)
    requires a <= b
    ensures a * width <= b * width
  {
  }

  /** How the trailing stars of a pattern are skipped once the name is exhausted. */
  method OnlyStarsRemain(pattern: string, at: nat) returns (only: bool)
    requires at <= |pattern|
    ensures only <==> Denotes(Tokens(pattern[at..]), "")
  {
    var patternIndex := at;
    while patternIndex < |pattern| && pattern[patternIndex] == '%'
      invariant at <= patternIndex <= |pattern|
      invariant Denotes(Tokens(pattern[at..]), "") <==> Denotes(Tokens(pattern[patternIndex..]), "")
    {
      OnlyRunsCoverNothing(pattern, patternIndex);
      patternIndex := patternIndex + 1;
    }
    OnlyRunsCoverNothing(pattern, patternIndex);
    only := patternIndex == |pattern|;
  }

  /** The loop's invariant: where it stands, and how many steps it took to get there. */
  ghost predicate Stands(pattern: string, name: string, at: nat, reached: nat, star: int, from: nat, steps: nat) {
    Tracks(pattern, name, at, reached, star, from) && Within(steps, pattern, from, at)
  }

  lemma StandsAtStart(pattern: string, name: string)
    ensures Stands(pattern, name, 0, 0, -1, 0, 0)
  {
    SegmentStarts(pattern, name, 0, 0);
  }

  lemma StandsInRange(pattern: string, name: string, at: nat, reached: nat, star: int, from: nat, steps: nat)
    requires Stands(pattern, name, at, reached, star, from, steps)
    ensures at <= |pattern| && from <= reached <= |name| && -1 <= star < at
    ensures steps < Budget(pattern, name)
  {
    WithinTotal(steps, pattern, name, from, at);
  }

  lemma StepOverStar(pattern: string, name: string, at: nat, reached: nat, star: int, from: nat, steps: nat)
    requires Stands(pattern, name, at, reached, star, from, steps)
    requires at < |pattern| && pattern[at] == '%'
    ensures Stands(pattern, name, at + 1, reached, at, reached, steps + 1)
  {
    LaterStarSuffices(pattern, name, at, reached, star, from);
    WithinStar(steps, pattern, from, at, reached);
  }

  lemma StepOverToken(pattern: string, name: string, at: nat, reached: nat, star: int, from: nat, steps: nat)
    requires Stands(pattern, name, at, reached, star, from, steps) && reached < |name|
    requires at < |pattern| ==> pattern[at] != '%'
    requires Compare(pattern, at, name[reached]).0
    ensures Stands(pattern, name, at + Compare(pattern, at, name[reached]).1, reached + 1, star, from, steps + 1)
  {
    CompareDecides(pattern, name, at, reached, star, from);
    WithinAdvances(steps, pattern, from, at, from, at + Compare(pattern, at, name[reached]).1);
  }

  lemma StepBack(pattern: string, name: string, at: nat, reached: nat, star: int, from: nat, steps: nat)
    requires Stands(pattern, name, at, reached, star, from, steps) && reached < |name|
    requires at < |pattern| ==> pattern[at] != '%'
    requires !Compare(pattern, at, name[reached]).0
    ensures star < 0 ==> !Covers(pattern, name)
    ensures star >= 0 ==> Stands(pattern, name, star + 1, from + 1, star, from + 1, steps + 1)
  {
    CompareDecides(pattern, name, at, reached, star, from);
    if star < 0 {
      MismatchWithoutStar(pattern, name, at, reached);
    } else {
      MismatchAfterStar(pattern, name, at, reached, star, from);
      WithinAdvances(steps, pattern, from, at, from + 1, star + 1);
    }
  }

  lemma StandsAtEnd(pattern: string, name: string, at: nat, star: int, from: nat, steps: nat)
    requires Stands(pattern, name, at, |name|, star, from, steps)
    ensures Covers(pattern, name) <==> Denotes(Tokens(pattern[at..]), "")
  {
    NameExhausted(pattern, name, at, star, from);
  }

  /**
  Matches a name against a pattern, remembering only the last star. `steps` counts the
  iterations of the loop.
  */
  method LikePatternMatches(pattern: string, name: string) returns (matches: bool, ghost steps: nat)
    ensures matches <==> Covers(pattern, name)
    ensures steps <= Budget(pattern, name)
  {
    hide Tokens, Denotes, Covers, Segment, Fixed, FixedCovers, Accepts, Tracks, Within, Stands, Budget;
    var patternIndex, nameIndex := 0, 0;
    var star, starNext := -1, 0;
    steps := 0;
    StandsAtStart(pattern, name);
    while nameIndex < |name|
      invariant 0 <= patternIndex && 0 <= nameIndex && 0 <= starNext
      invariant Stands(pattern, name, patternIndex, nameIndex, star, starNext, steps)
      decreases |name| - starNext, |pattern| - patternIndex
    {
      StandsInRange(pattern, name, patternIndex, nameIndex, star, starNext, steps);
      if patternIndex < |pattern| && pattern[patternIndex] == '%' {
        StepOverStar(pattern, name, patternIndex, nameIndex, star, starNext, steps);
        star, starNext := patternIndex, nameIndex;
        patternIndex := patternIndex + 1;
      } else {
        var (matched, width) := Compare(pattern, patternIndex, name[nameIndex]);
        if matched {
          StepOverToken(pattern, name, patternIndex, nameIndex, star, starNext, steps);
          patternIndex := patternIndex + width;
          nameIndex := nameIndex + 1;
        } else {
          StepBack(pattern, name, patternIndex, nameIndex, star, starNext, steps);
          if star < 0 {
            return false, steps + 1;
          }
          starNext := starNext + 1;
          patternIndex, nameIndex := star + 1, starNext;
        }
      }
      steps := steps + 1;
    }
    StandsInRange(pattern, name, patternIndex, nameIndex, star, starNext, steps);
    StandsAtEnd(pattern, name, patternIndex, star, starNext, steps);
    matches := OnlyStarsRemain(pattern, patternIndex);
  }
}
