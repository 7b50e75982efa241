/** Making identifiers safe to interpolate, and the lexer that reads them back. */
module Quoting {
  import opened Outcomes
  import opened Lists

  /** Every backtick written twice. */
  function Doubled(name: string): string {
    if name == "" then ""
    else (if name[0] == '`' then "``" else [name[0]]) + Doubled(name[1..])
  }

  function QuoteIdentifier(name: string): string {
    "`" + Doubled(name) + "`"
  }

  function QuotedParts(parts: seq<string>): (quoted: seq<string>)
    ensures |quoted| == |parts|
    ensures forall i :: 0 <= i < |parts| ==> quoted[i] == QuoteIdentifier(parts[i])
  {
    seq(|parts|, i requires 0 <= i < |parts| => QuoteIdentifier(parts[i]))
  }

  function Qualified(parts: seq<string>): string {
    Join(QuotedParts(parts), ".")
  }

  method QuoteQualified(parts: seq<string>) returns (text: string)
    ensures text == Qualified(parts)
    ensures ParseQualified(text) == Some(parts)
  {
    var quoted := new string[|parts|];
    for i := 0 to |parts|
      invariant forall k :: 0 <= k < i ==> quoted[k] == QuoteIdentifier(parts[k])
    {
      quoted[i] := QuoteIdentifier(parts[i]);
    }
    assert quoted[..] == QuotedParts(parts);
    ParsingUndoesQuoting(parts);
    return Join(quoted[..], ".");
  }

  // ---------------------------------------------------------------------------
  // The lexer: section 9.2 of the MySQL 8.4 Reference Manual.

  /** Reads up to the closing backtick; a doubled one stands for itself. */
  function LexBody(text: string): Option<(string, string)> {
    if text == "" then
      None
    else if text[0] != '`' then
      match LexBody(text[1..])
      case None => None
      case Some((name, rest)) => Some(([text[0]] + name, rest))
    else if |text| > 1 && text[1] == '`' then
      match LexBody(text[2..])
      case None => None
      case Some((name, rest)) => Some(("`" + name, rest))
    else
      Some(("", text[1..]))
  }

  /** A quoted identifier at the front of a text, and what follows it. */
  function LexIdentifier(text: string): Option<(string, string)> {
    if text == "" || text[0] != '`' then None else LexBody(text[1..])
  }

  function ParseParts(text: string): Option<seq<string>>
    decreases |text|
  {
    match LexIdentifier(text)
    case None => None
    case Some((name, rest)) =>
      if rest == "" then Some([name])
      else if rest[0] != '.' || |rest| >= |text| then None
      else
        match ParseParts(rest[1..])
        case None => None
        case Some(names) => Some([name] + names)
  }

  /** A dotted list of quoted identifiers; the empty text has no parts. */
  function ParseQualified(text: string): Option<seq<string>> {
    if text == "" then Some([]) else ParseParts(text)
  }

  /** What may follow a quoted identifier without extending it. */
  predicate Ends(rest: string) {
    rest == "" || rest[0] != '`'
  }

  lemma {:induction false} LexBodyUndoesDoubling(name: string, rest: string)
    requires Ends(rest)
    ensures LexBody(Doubled(name) + "`" + rest) == Some((name, rest))
  {
    var text := Doubled(name) + "`" + rest;
    if name == "" {
      assert text == "`" + rest;
      assert text[1..] == rest;
    } else {
      LexBodyUndoesDoubling(name[1..], rest);
      var tail := Doubled(name[1..]) + "`" + rest;
      if name[0] == '`' {
        assert text == "``" + tail;
        assert text[2..] == tail;
        assert name == "`" + name[1..];
      } else {
        assert text == [name[0]] + tail;
        assert text[1..] == tail;
        assert name == [name[0]] + name[1..];
      }
    }
  }

  /** A quoted name never ends early, whatever its characters and whatever follows. */
  lemma LexingUndoesQuoting(name: string, rest: string)
    requires Ends(rest)
    ensures LexIdentifier(QuoteIdentifier(name) + rest) == Some((name, rest))
  {
    LexBodyUndoesDoubling(name, rest);
    assert (QuoteIdentifier(name) + rest)[1..] == Doubled(name) + "`" + rest;
  }

  lemma {:induction false} ParsingUndoesQuoting(parts: seq<string>)
    ensures ParseQualified(Qualified(parts)) == Some(parts)
    ensures parts != [] ==> Qualified(parts) != "" && ParseParts(Qualified(parts)) == Some(parts)
  {
    var quoted := QuotedParts(parts);
    if |parts| == 1 {
      LexingUndoesQuoting(parts[0], "");
      assert QuoteIdentifier(parts[0]) + "" == Qualified(parts);
      assert parts == [parts[0]];
    } else if |parts| > 1 {
      var rest := "." + Qualified(parts[1..]);
      assert QuotedParts(parts)[1..] == QuotedParts(parts[1..]);
      assert Qualified(parts) == quoted[0] + "." + Join(quoted[1..], ".");
      assert Qualified(parts) == QuoteIdentifier(parts[0]) + rest;
      LexingUndoesQuoting(parts[0], rest);
      ParsingUndoesQuoting(parts[1..]);
      assert rest[1..] == Qualified(parts[1..]);
      assert parts == [parts[0]] + parts[1..];
    }
  }

  lemma {:induction false} LexBodyAcceptsOnlyDoubled(text: string, name: string, rest: string)
    requires LexBody(text) == Some((name, rest))
    ensures text == Doubled(name) + "`" + rest && Ends(rest)
    decreases |text|
  {
    if text[0] != '`' {
      var (name', rest') := LexBody(text[1..]).value;
      LexBodyAcceptsOnlyDoubled(text[1..], name', rest');
      assert name == [text[0]] + name' && rest == rest';
      assert text == [text[0]] + text[1..];
      assert name[1..] == name';
    } else if |text| > 1 && text[1] == '`' {
      var (name', rest') := LexBody(text[2..]).value;
      LexBodyAcceptsOnlyDoubled(text[2..], name', rest');
      assert name == "`" + name' && rest == rest';
      assert text == "``" + text[2..];
      assert name[1..] == name';
    } else {
      assert name == "" && rest == text[1..];
      assert text == "`" + rest;
    }
  }

  /** The parser accepts nothing but what the printer writes. */
  lemma {:induction false} ParsingAcceptsOnlyQuoted(text: string, parts: seq<string>)
    requires ParseQualified(text) == Some(parts)
    ensures text == Qualified(parts)
    decreases |text|
  {
    hide Doubled, LexBody;
    if text == "" {
    } else {
      var (name, rest) := LexIdentifier(text).value;
      LexBodyAcceptsOnlyDoubled(text[1..], name, rest);
      assert text == ['`'] + text[1..];
      assert text == QuoteIdentifier(name) + rest;
      if rest == "" {
        assert parts == [name];
        assert QuotedParts(parts) == [QuoteIdentifier(name)];
      } else {
        var names := ParseParts(rest[1..]).value;
        assert parts == [name] + names;
        assert rest[1..] != "";
        ParsingAcceptsOnlyQuoted(rest[1..], names);
        assert names != [];
        assert QuotedParts(parts)[1..] == QuotedParts(names);
        assert rest == "." + rest[1..];
      }
    }
  }

  /** Different part lists never share a quoted text. */
  lemma QuotingIsInjective(parts: seq<string>, parts': seq<string>)
    requires Qualified(parts) == Qualified(parts')
    ensures parts == parts'
  {
    ParsingUndoesQuoting(parts);
    ParsingUndoesQuoting(parts');
    assert Some(parts) == ParseQualified(Qualified(parts)) == Some(parts');
  }

  // ---------------------------------------------------------------------------
  // The printed form, in words.

  /** A name without a backtick is unchanged between two of them; every backtick of a name is doubled. */
  lemma {:induction false} DoublesBackticks(left: string, right: string)
    ensures '`' !in left ==> Doubled(left) == left
    ensures '`' !in left ==> Doubled(left + "`" + right) == left + "``" + Doubled(right)
    ensures QuoteIdentifier(left) == "`" + Doubled(left) + "`"
  {
    if left == "" {
      assert left + "`" + right == ['`'] + right && (['`'] + right)[1..] == right;
      assert left + "``" + Doubled(right) == "``" + Doubled(right);
    } else {
      DoublesBackticks(left[1..], right);
      assert left == [left[0]] + left[1..];
      assert (left + "`" + right)[1..] == left[1..] + "`" + right;
      assert left + "``" + Doubled(right) == [left[0]] + (left[1..] + "``" + Doubled(right));
    }
  }

  /** Parts are set side by side with dots between them. */
  lemma DotsBetweenParts(first: string, rest: seq<string>)
    ensures Qualified([]) == ""
    ensures Qualified([first]) == QuoteIdentifier(first)
    ensures rest != [] ==> Qualified([first] + rest) == QuoteIdentifier(first) + "." + Qualified(rest)
  {
    assert QuotedParts([]) == [] && QuotedParts([first]) == [QuoteIdentifier(first)];
    assert QuotedParts([first] + rest) == [QuoteIdentifier(first)] + QuotedParts(rest);
    assert ([QuoteIdentifier(first)] + QuotedParts(rest))[1..] == QuotedParts(rest);
  }
}
