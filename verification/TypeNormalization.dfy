/** Removing the legacy display width of integer and YEAR column types. */
module TypeNormalization {
  import opened Outcomes

  // ---------------------------------------------------------------------------
  // Text helpers.

  /** Position of the first `c`, or the length when there is none. */
  function IndexOf(s: string, c: char): (index: nat)
    ensures index <= |s|
    ensures forall i :: 0 <= i < index ==> s[i] != c
    ensures index < |s| ==> s[index] == c
  {
    if s == "" || s[0] == c then 0 else IndexOf(s[1..], c) + 1
  }

  /** Lower case, as far as the names below can tell: A-Z, and the dotted capital I. */
  function LowerChar(c: char): char {
    if 'A' <= c <= 'Z' then (c as int + 32) as char
    else if c == '\U{130}' then 'i'
    else c
  }

  function ToLower(s: string): (lower: string)
    ensures |lower| == |s|
    ensures forall i :: 0 <= i < |s| ==> lower[i] == LowerChar(s[i])
  {
    seq(|s|, i requires 0 <= i < |s| => LowerChar(s[i]))
  }

  /** Equality up to the case of A-Z, the only case pairs of the two words it is used for. */
  predicate EqualFold(s: string, word: string) {
    |s| == |word| && forall i :: 0 <= i < |s| ==>
      s[i] == word[i] || (s[i] != '\U{130}' && LowerChar(s[i]) == LowerChar(word[i]))
  }

  predicate IsSpace(c: char) {
    || '\t' <= c <= '\r' || c == ' ' || c == '\U{85}' || c == '\U{A0}' || c == '\U{1680}'
    || '\U{2000}' <= c <= '\U{200A}' || c == '\U{2028}' || c == '\U{2029}' || c == '\U{202F}'
    || c == '\U{205F}' || c == '\U{3000}'
  }

  /** Length of the leading run of non-space characters. */
  function WordLength(s: string): (n: nat)
    ensures n <= |s|
    ensures s != "" && !IsSpace(s[0]) ==> n > 0
  {
    if s == "" || IsSpace(s[0]) then 0 else 1 + WordLength(s[1..])
  }

  /** Space-separated words. */
  function Fields(s: string): seq<string>
    decreases |s|
  {
    if s == "" then []
    else if IsSpace(s[0]) then Fields(s[1..])
    else [s[..WordLength(s)]] + Fields(s[WordLength(s)..])
  }

  predicate IsASCIIDigits(s: string) {
    s != "" && forall i :: 0 <= i < |s| ==> '0' <= s[i] <= '9'
  }

  // ---------------------------------------------------------------------------
  // The normalizer.

  predicate HasDisplayWidth(base: string) {
    base in {"bigint", "int", "integer", "mediumint", "smallint", "tinyint", "year"}
  }

  predicate ContainsZerofill(attributes: string) {
    exists field :: field in Fields(attributes) && EqualFold(field, "zerofill")
  }

  /** The two cases in which the width says something. */
  predicate KeepsWidth(base: string, width: string, attributes: string) {
    (EqualFold(base, "tinyint") && width == "1") || ContainsZerofill(attributes)
  }

  function NormalizeColumnType(columnType: string): string {
    var open := IndexOf(columnType, '(');
    if open == |columnType| then
      columnType
    else
      var closing := open + IndexOf(columnType[open..], ')');
      if closing == |columnType| then columnType
      else
        var base, width, attributes := columnType[..open], columnType[open + 1..closing], columnType[closing + 1..];
        if !HasDisplayWidth(ToLower(base)) then columnType
        else if !IsASCIIDigits(width) then columnType
        else if EqualFold(base, "tinyint") && width == "1" then columnType
        else if ContainsZerofill(attributes) then columnType
        else base + attributes
  }

  /** A type text split at its parentheses. */
  predicate Splits(columnType: string, base: string, width: string, attributes: string) {
    columnType == base + "(" + width + ")" + attributes && '(' !in base && ')' !in width
  }

  /** The width of such a type says nothing: the cases in which it is removed. */
  predicate Plain(base: string, width: string, attributes: string) {
    HasDisplayWidth(ToLower(base)) && IsASCIIDigits(width) && !KeepsWidth(base, width, attributes)
  }

  /** The type changes exactly when it is an integer or YEAR type whose width says nothing, and loses only that. */
  lemma ChangesExactlyPlainWidths(columnType: string, base: string, width: string, attributes: string)
    requires Splits(columnType, base, width, attributes)
    ensures NormalizeColumnType(columnType) == if Plain(base, width, attributes) then base + attributes else columnType
  {
    hide ToLower, HasDisplayWidth, EqualFold, ContainsZerofill, IsASCIIDigits, IndexOf;
    FirstParentheses(columnType, base, width, attributes);
  }

  lemma FirstParentheses(columnType: string, base: string, width: string, attributes: string)
    requires Splits(columnType, base, width, attributes)
    ensures var open := |base|; var closing := open + |width| + 1;
            && closing < |columnType|
            && IndexOf(columnType, '(') == open && open + IndexOf(columnType[open..], ')') == closing
            && columnType[..open] == base
            && columnType[open + 1..closing] == width
            && columnType[closing + 1..] == attributes
  {
    hide IndexOf;
    CutsBack(base, width, attributes);
    var closed := width + ")" + attributes;
    FirstAfter(base, '(', closed);
    FirstAfter("(" + width, ')', attributes);
  }

  lemma CutsBack(base: string, width: string, attributes: string)
    ensures var text := base + "(" + width + ")" + attributes;
            var open := |base|; var closing := open + |width| + 1;
            && text == base + ['('] + (width + ")" + attributes)
            && text[open..] == ("(" + width) + [')'] + attributes
            && text[..open] == base && text[open + 1..closing] == width && text[closing + 1..] == attributes
  {
  }

  lemma FirstAfter(prefix: string, c: char, rest: string)
    requires c !in prefix
    ensures IndexOf(prefix + [c] + rest, c) == |prefix|
  {
    var s := prefix + [c] + rest;
    assert s[|prefix|] == c;
    assert forall i :: 0 <= i < |prefix| ==> s[i] == prefix[i];
  }

  /** No parenthesis is opened and closed after that. */
  ghost predicate Unsplit(columnType: string) {
    forall base, width, attributes :: !Splits(columnType, base, width, attributes)
  }

  /** Text without a parenthesised part is left alone. */
  lemma UnsplitIsUnchanged(columnType: string)
    requires Unsplit(columnType)
    ensures NormalizeColumnType(columnType) == columnType
  {
    hide IndexOf;
    var open := IndexOf(columnType, '(');
    if open < |columnType| && open + IndexOf(columnType[open..], ')') < |columnType| {
      FoundParenthesesSplit(columnType);
    }
  }

  lemma FoundParenthesesSplit(columnType: string)
    requires IndexOf(columnType, '(') < |columnType|
    requires ')' in columnType[IndexOf(columnType, '(')..]
    ensures !Unsplit(columnType)
  {
    hide IndexOf, Splits;
    var open := IndexOf(columnType, '(');
    var rest := columnType[open..];
    var length := IndexOf(rest, ')') - 1;
    SplitAt(columnType, columnType[..open], rest[1..length + 1], rest[length + 2..]);
  }

  lemma SplitAt(columnType: string, base: string, width: string, attributes: string)
    requires |columnType| == |base| + |width| + 2 + |attributes|
    requires columnType[..|base|] == base && '(' !in base && columnType[|base|] == '('
    requires var rest := columnType[|base|..];
             && rest[1..|width| + 1] == width && ')' !in rest[..|width| + 1] && rest[|width| + 1] == ')'
             && rest[|width| + 2..] == attributes
    ensures Splits(columnType, base, width, attributes)
  {
    var rest := columnType[|base|..];
    assert rest == "(" + width + ")" + attributes;
    assert columnType == base + rest;
    assert forall i :: 0 <= i < |width| ==> width[i] == rest[..|width| + 1][i + 1];
    assert base + ("(" + width + ")" + attributes) == base + "(" + width + ")" + attributes;
  }

  // ---------------------------------------------------------------------------
  // The same, spelled out.

  /** White space, by its code points. */
  lemma SpacesAre(c: char)
    ensures IsSpace(c) <==>
            c in {'\U{9}', '\U{A}', '\U{B}', '\U{C}', '\U{D}', '\U{20}', '\U{85}', '\U{A0}', '\U{1680}',
                  '\U{2000}', '\U{2001}', '\U{2002}', '\U{2003}', '\U{2004}', '\U{2005}', '\U{2006}',
                  '\U{2007}', '\U{2008}', '\U{2009}', '\U{200A}', '\U{2028}', '\U{2029}', '\U{202F}',
                  '\U{205F}', '\U{3000}'}
  {
  }

  /** `s[i..j]` is a word: no space in it, and spaces or an end around it. */
  predicate IsWord(s: string, i: nat, j: nat) {
    && i < j <= |s|
    && (i == 0 || IsSpace(s[i - 1])) && (j == |s| || IsSpace(s[j]))
    && forall k :: i <= k < j ==> !IsSpace(s[k])
  }

  lemma {:induction false} WordLengthEnds(s: string)
    ensures forall k :: 0 <= k < WordLength(s) ==> !IsSpace(s[k])
    ensures WordLength(s) < |s| ==> IsSpace(s[WordLength(s)])
  {
    if s == "" || IsSpace(s[0]) {
    } else {
      WordLengthEnds(s[1..]);
    }
  }

  /** A word of the rest, read in the whole. */
  lemma WordOfRest(s: string, n: nat, i: nat, j: nat)
    requires 0 < n <= |s| && n <= i && (n == |s| || IsSpace(s[n]) || IsSpace(s[n - 1]))
    ensures IsWord(s, i, j) <==> n <= j && IsWord(s[n..], i - n, j - n)
  {
    hide IsSpace;
    var rest := s[n..];
    if n <= i < j <= |s| {
      assert forall k :: n <= k < |s| ==> s[k] == rest[k - n];
    }
  }

  predicate HasWord(s: string, word: string) {
    exists i, j :: 0 <= i < j <= |s| && IsWord(s, i, j) && s[i..j] == word
  }

  /** The fields of a text are its words. */
  lemma {:induction false} FieldsAreWords(s: string, field: string)
    ensures field in Fields(s) <==> HasWord(s, field)
    decreases |s|
  {
    hide IsSpace, HasWord;
    if s == "" {
      assert Fields(s) == [];
      NoWordInNothing(field);
    } else {
      var n := if IsSpace(s[0]) then 1 else WordLength(s);
      FieldsAreWords(s[n..], field);
      WordsUnfold(s, n, field);
    }
  }

  lemma NoWordInNothing(word: string)
    ensures !HasWord("", word)
  {
  }

  lemma WordsUnfold(s: string, n: nat, word: string)
    requires s != "" && n == if IsSpace(s[0]) then 1 else WordLength(s)
    ensures HasWord(s, word) <==> (!IsSpace(s[0]) && word == s[..n]) || HasWord(s[n..], word)
  {
    hide IsSpace, IsWord, WordLength;
    WordLengthEnds(s);
    if HasWord(s[n..], word) {
      WordOfRestIsWord(s, n, word);
    }
    if i, j :| 0 <= i < j <= |s| && IsWord(s, i, j) && s[i..j] == word {
      WordStarts(s, n, i, j);
      if i >= n {
        WordOfRest(s, n, i, j);
        SameText(s, n, i, j);
        assert 0 <= i - n < j - n <= |s[n..]|;
        assert s[n..][i - n..j - n] == word;
      }
    }
    if !IsSpace(s[0]) {
      FirstWord(s, n);
    }
  }

  lemma WordOfRestIsWord(s: string, n: nat, word: string)
    requires s != "" && n == (if IsSpace(s[0]) then 1 else WordLength(s)) && HasWord(s[n..], word)
    ensures HasWord(s, word)
  {
    hide IsSpace, IsWord, WordLength;
    WordLengthEnds(s);
    var rest := s[n..];
    var i, j :| 0 <= i < j <= |rest| && IsWord(rest, i, j) && rest[i..j] == word;
    WordOfRest(s, n, i + n, j + n);
    SameText(s, n, i + n, j + n);
    assert s[i + n..j + n] == word;
  }

  lemma FirstWord(s: string, n: nat)
    requires s != "" && !IsSpace(s[0]) && n == WordLength(s)
    ensures HasWord(s, s[..n])
  {
    hide IsSpace;
    WordLengthEnds(s);
    assert IsWord(s, 0, n) && s[0..n] == s[..n];
  }

  lemma SameText(s: string, n: nat, i: nat, j: nat)
    requires n <= i < j <= |s|
    ensures s[n..][i - n..j - n] == s[i..j]
  {
  }

  /** A word begins with the leading word, or after it. */
  lemma WordStarts(s: string, n: nat, i: nat, j: nat)
    requires s != "" && n == (if IsSpace(s[0]) then 1 else WordLength(s)) && IsWord(s, i, j)
    ensures i >= n || (!IsSpace(s[0]) && i == 0 && j == n)
  {
    hide IsSpace;
    WordLengthEnds(s);
  }

  /** The word up to the case of A-Z. */
  predicate Spelled(text: string, word: string) {
    |text| == |word| && forall i :: 0 <= i < |text| ==>
      text[i] == word[i] || ('A' <= text[i] <= 'Z' && text[i] as int + 32 == word[i] as int)
  }

  /** The same, with the dotted capital I for an i. */
  predicate Lowers(text: string, word: string) {
    |text| == |word| && forall i :: 0 <= i < |text| ==>
      || text[i] == word[i] || ('A' <= text[i] <= 'Z' && text[i] as int + 32 == word[i] as int)
      || (text[i] == '\U{130}' && word[i] == 'i')
  }

  lemma LowersIs(text: string, word: string)
    requires forall i :: 0 <= i < |word| ==> 'a' <= word[i] <= 'z'
    ensures ToLower(text) == word <==> Lowers(text, word)
  {
    var lower := ToLower(text);
    if |text| == |word| {
      forall i | 0 <= i < |text|
        ensures lower[i] == word[i] <==>
                || text[i] == word[i] || ('A' <= text[i] <= 'Z' && text[i] as int + 32 == word[i] as int)
                || (text[i] == '\U{130}' && word[i] == 'i')
      {
        LowerCharIs(text[i], word[i]);
      }
    }
  }

  lemma LowerCharIs(c: char, l: char)
    requires 'a' <= l <= 'z'
    ensures LowerChar(c) == l <==>
            c == l || ('A' <= c <= 'Z' && c as int + 32 == l as int) || (c == '\U{130}' && l == 'i')
  {
  }

  lemma SpelledIs(text: string, word: string)
    requires forall i :: 0 <= i < |word| ==> 'a' <= word[i] <= 'z'
    ensures EqualFold(text, word) <==> Spelled(text, word)
  {
    if |text| == |word| {
      forall i | 0 <= i < |text|
        ensures (text[i] == word[i] || (text[i] != '\U{130}' && LowerChar(text[i]) == LowerChar(word[i]))) <==>
                text[i] == word[i] || ('A' <= text[i] <= 'Z' && text[i] as int + 32 == word[i] as int)
      {
        LowerCharIs(text[i], word[i]);
      }
    }
  }

  /** Some word of the attributes is ZEROFILL, in any case. */
  predicate ZerofillWord(attributes: string) {
    exists i, j :: 0 <= i < j <= |attributes| && IsWord(attributes, i, j) && Spelled(attributes[i..j], "zerofill")
  }

  lemma ZerofillIsAWord(attributes: string)
    ensures ContainsZerofill(attributes) <==> ZerofillWord(attributes)
  {
    hide Fields, EqualFold, Spelled, IsWord;
    if field :| field in Fields(attributes) && EqualFold(field, "zerofill") {
      FieldsAreWords(attributes, field);
      SpelledIs(field, "zerofill");
    }
    if i, j :| 0 <= i < j <= |attributes| && IsWord(attributes, i, j) && Spelled(attributes[i..j], "zerofill") {
      FieldsAreWords(attributes, attributes[i..j]);
      SpelledIs(attributes[i..j], "zerofill");
    }
  }

  /** One of the seven types that carry a display width. */
  predicate WidthCarrying(base: string) {
    || Lowers(base, "bigint") || Lowers(base, "int") || Lowers(base, "integer") || Lowers(base, "mediumint")
    || Lowers(base, "smallint") || Lowers(base, "tinyint") || Lowers(base, "year")
  }

  lemma WidthCarryingIs(base: string)
    ensures HasDisplayWidth(ToLower(base)) <==> WidthCarrying(base)
  {
    hide ToLower, Lowers;
    LowersIs(base, "bigint");
    LowersIs(base, "int");
    LowersIs(base, "integer");
    LowersIs(base, "mediumint");
    LowersIs(base, "smallint");
    LowersIs(base, "tinyint");
    LowersIs(base, "year");
  }

  /**
  What is removed, in words: the parenthesised digits of one of the seven types, unless it is
  TINYINT with width 1, or some attribute is ZEROFILL.
  */
  lemma NormalizesByName(base: string, width: string, attributes: string)
    requires '(' !in base && ')' !in width
    ensures var columnType := base + "(" + width + ")" + attributes;
            var digits := width != "" && forall i :: 0 <= i < |width| ==> '0' <= width[i] <= '9';
            NormalizeColumnType(columnType) ==
            if WidthCarrying(base) && digits && !(Spelled(base, "tinyint") && width == "1") && !ZerofillWord(attributes)
            then base + attributes
            else columnType
  {
    hide NormalizeColumnType, ToLower, HasDisplayWidth, EqualFold, ContainsZerofill;
    hide WidthCarrying, Spelled, ZerofillWord;
    WidthCarryingIs(base);
    SpelledIs(base, "tinyint");
    ZerofillIsAWord(attributes);
    ChangesExactlyPlainWidths(base + "(" + width + ")" + attributes, base, width, attributes);
  }

  /** BOOLEAN keeps the width that distinguishes it, and loses any other. */
  lemma TinyintOneIsKept()
    ensures NormalizeColumnType("tinyint(1)") == "tinyint(1)"
    ensures NormalizeColumnType("tinyint(4)") == "tinyint"
  {
    hide NormalizeColumnType, ZerofillWord;
    assert "tinyint(1)" == "tinyint" + "(" + "1" + ")" + "" && "tinyint(4)" == "tinyint" + "(" + "4" + ")" + "";
    NoZerofill();
    NormalizesByName("tinyint", "1", "");
    NormalizesByName("tinyint", "4", "");
  }

  lemma NoZerofill()
    ensures !ZerofillWord("")
  {
  }

  // ---------------------------------------------------------------------------
  // Normalising twice.

  /** A split of the attributes continues a split of the whole. */
  lemma SplitsFurther(base: string, attributes: string, pre: string, width: string, post: string)
    requires '(' !in base && Splits(attributes, pre, width, post)
    ensures Splits(base + attributes, base + pre, width, post)
  {
    assert base + attributes == (base + pre) + "(" + width + ")" + post;
  }

  /** And every split of the whole continues one of the attributes. */
  lemma SplitsInAttributes(base: string, attributes: string, longer: string, width: string, post: string)
    requires '(' !in base && Splits(base + attributes, longer, width, post)
    ensures base <= longer && Splits(attributes, longer[|base|..], width, post)
  {
    var text := base + attributes;
    assert text[|longer|] == '(';
    assert forall i :: 0 <= i < |base| ==> text[i] == base[i] != '(';
    assert text[..|longer|] == longer && text[|longer|..] == "(" + width + ")" + post;
    assert text[..|base|] == base == longer[..|base|];
    assert attributes == text[|base|..] == longer[|base|..] + ("(" + width + ")" + post);
    assert attributes == longer[|base|..] + "(" + width + ")" + post;
  }

  /** With its width removed, the type shows another plain width. */
  ghost predicate ShowsAnother(base: string, attributes: string) {
    exists pre, width, post :: Splits(attributes, pre, width, post) && Plain(base + pre, width, post)
  }

  /** Normalising again changes nothing, except where removing one plain width shows another. */
  lemma IdempotentExactly(columnType: string, base: string, width: string, attributes: string)
    requires Splits(columnType, base, width, attributes)
    ensures NormalizeColumnType(NormalizeColumnType(columnType)) == NormalizeColumnType(columnType) <==>
            !(Plain(base, width, attributes) && ShowsAnother(base, attributes))
  {
    hide NormalizeColumnType, Plain;
    ChangesExactlyPlainWidths(columnType, base, width, attributes);
    if Plain(base, width, attributes) {
      var once := base + attributes;
      if ShowsAnother(base, attributes) {
        var pre, width', post :| Splits(attributes, pre, width', post) && Plain(base + pre, width', post);
        SplitsFurther(base, attributes, pre, width', post);
        ChangesExactlyPlainWidths(once, base + pre, width', post);
        assert |base + pre + post| < |once|;
      } else if !Unsplit(once) {
        var longer, width', post :| Splits(once, longer, width', post);
        SplitsInAttributes(base, attributes, longer, width', post);
        assert base + longer[|base|..] == longer;
        ChangesExactlyPlainWidths(once, longer, width', post);
      } else {
        UnsplitIsUnchanged(once);
      }
    }
  }

  /** The same for every text: the texts that change twice are the only ones. */
  lemma IdempotentExceptTwice(columnType: string)
    ensures NormalizeColumnType(NormalizeColumnType(columnType)) == NormalizeColumnType(columnType) <==>
            forall base, width, attributes :: Splits(columnType, base, width, attributes) ==>
              !(Plain(base, width, attributes) && ShowsAnother(base, attributes))
  {
    hide NormalizeColumnType, Plain, ShowsAnother, Splits;
    if Unsplit(columnType) {
      UnsplitIsUnchanged(columnType);
    } else {
      forall base, width, attributes | Splits(columnType, base, width, attributes)
        ensures NormalizeColumnType(NormalizeColumnType(columnType)) == NormalizeColumnType(columnType) <==>
                !(Plain(base, width, attributes) && ShowsAnother(base, attributes))
      {
        IdempotentExactly(columnType, base, width, attributes);
      }
    }
  }

  /** Such a text, and one with a second parenthesised part that is stable. */
  lemma SecondWidthDefeatsIdempotence()
    ensures NormalizeColumnType("int(1)(2)") == "int(2)" && NormalizeColumnType("int(2)") == "int"
    ensures NormalizeColumnType("int(1)(x)") == "int(x)" == NormalizeColumnType("int(x)")
  {
    hide NormalizeColumnType;
    assert "int(1)(2)" == "int" + "(" + "1" + ")" + "(2)";
    assert "int(2)" == "int" + "(" + "2" + ")" + "";
    assert "int(1)(x)" == "int" + "(" + "1" + ")" + "(x)";
    assert "int(x)" == "int" + "(" + "x" + ")" + "";
    assert !IsASCIIDigits("x") by {
      assert "x"[0] == 'x';
    }
    PlainInt("1", "(2)");
    PlainInt("1", "(x)");
    PlainInt("2", "");
    ChangesExactlyPlainWidths("int(1)(2)", "int", "1", "(2)");
    ChangesExactlyPlainWidths("int(1)(x)", "int", "1", "(x)");
    ChangesExactlyPlainWidths("int(2)", "int", "2", "");
    ChangesExactlyPlainWidths("int(x)", "int", "x", "");
  }

  lemma PlainInt(width: string, attributes: string)
    requires IsASCIIDigits(width) && |attributes| < 8
    ensures Plain("int", width, attributes)
  {
    assert ToLower("int") == "int";
    FieldsAreShort(attributes);
  }

  lemma {:induction false} FieldsAreShort(s: string)
    ensures forall field :: field in Fields(s) ==> |field| <= |s|
    decreases |s|
  {
    if s == "" {
      assert Fields(s) == [];
    } else if IsSpace(s[0]) {
      FieldsAreShort(s[1..]);
    } else {
      FieldsAreShort(s[WordLength(s)..]);
    }
  }

  // ---------------------------------------------------------------------------
  // Integer types by their parts.

  /** An integer or YEAR type: base, optional width, and attributes without a parenthesised part. */
  datatype IntegerType = IntegerType(base: string, width: Option<string>, attributes: string)
  {
    predicate Valid() {
      && HasDisplayWidth(ToLower(base))
      && (width.Some? ==> IsASCIIDigits(width.value))
      && '(' !in attributes
    }

    /** The attributes are set off by a space, as the server spells them. */
    predicate Spaced() {
      attributes == "" || attributes[0] == ' '
    }

    function Text(): string {
      base + (if width.None? then "" else "(" + width.value + ")") + attributes
    }

    /** The width that remains part of the type's meaning. */
    function Retained(): Option<string> {
      if width.Some? && KeepsWidth(base, width.value, attributes) then width else None
    }

    function Normal(): IntegerType {
      IntegerType(base, Retained(), attributes)
    }
  }

  /** A base has no parenthesis and no space in it. */
  lemma BaseIsOneWord(base: string)
    requires HasDisplayWidth(ToLower(base))
    ensures forall i :: 0 <= i < |base| ==> base[i] != '(' && base[i] != ' '
  {
    var lower := ToLower(base);
    assert forall i :: 0 <= i < |lower| ==> lower[i] == LowerChar(base[i]);
    assert forall i :: 0 <= i < |lower| ==> lower[i] != '(' && lower[i] != ' ';
  }

  lemma NormalizesParts(t: IntegerType)
    requires t.Valid()
    ensures t.Normal().Valid()
    ensures NormalizeColumnType(t.Text()) == t.Normal().Text()
  {
    hide ToLower, HasDisplayWidth, IsASCIIDigits, EqualFold, ContainsZerofill, NormalizeColumnType;
    BaseIsOneWord(t.base);
    if t.width.None? {
      NoParenthesis(t.base, t.attributes);
      assert Unsplit(t.Text()) by {
        forall base, width, attributes
          ensures !Splits(t.Text(), base, width, attributes)
        {
          assert (base + "(" + width + ")" + attributes)[|base|] == '(';
        }
      }
      UnsplitIsUnchanged(t.Text());
    } else {
      DigitsHaveNoParenthesis(t.width.value);
      ChangesExactlyPlainWidths(t.Text(), t.base, t.width.value, t.attributes);
    }
  }

  lemma DigitsHaveNoParenthesis(width: string)
    requires IsASCIIDigits(width)
    ensures ')' !in width
  {
  }

  lemma NoParenthesis(base: string, attributes: string)
    requires '(' !in base && '(' !in attributes
    ensures '(' !in base + "" + attributes
  {
  }

  /** On these types, normalising twice changes nothing more. */
  lemma NormalizationIsIdempotent(t: IntegerType)
    requires t.Valid()
    ensures NormalizeColumnType(NormalizeColumnType(t.Text())) == NormalizeColumnType(t.Text())
  {
    NormalizesParts(t);
    NormalizesParts(t.Normal());
    assert t.Normal().Normal() == t.Normal();
  }

  // ---------------------------------------------------------------------------
  // When two types normalise alike.

  /** A width shows where a text divides; without one the parts may run together. */
  lemma TextsAgree(t: IntegerType, u: IntegerType)
    requires t.Valid() && u.Valid()
    ensures t.Text() == u.Text() <==>
            && t.width == u.width
            && if t.width.None? then t.base + t.attributes == u.base + u.attributes
               else t.base == u.base && t.attributes == u.attributes
  {
    hide ToLower, HasDisplayWidth, EqualFold, ContainsZerofill, IndexOf;
    WidthShows(t);
    WidthShows(u);
    if t.width.Some? && u.width.Some? {
      DigitsHaveNoParenthesis(t.width.value);
      DigitsHaveNoParenthesis(u.width.value);
      BaseIsOneWord(t.base);
      BaseIsOneWord(u.base);
      FirstParentheses(t.Text(), t.base, t.width.value, t.attributes);
      FirstParentheses(u.Text(), u.base, u.width.value, u.attributes);
    } else if t.width.None? && u.width.None? {
      assert t.base + "" == t.base && u.base + "" == u.base;
    }
  }

  lemma WidthShows(t: IntegerType)
    requires t.Valid()
    ensures t.width.Some? <==> '(' in t.Text()
  {
    hide ToLower, HasDisplayWidth, IsASCIIDigits;
    BaseIsOneWord(t.base);
    if t.width.None? {
      NoParenthesis(t.base, t.attributes);
    } else {
      assert t.Text()[|t.base|] == '(';
    }
  }

  /** `t` spells `u`: its attributes complete INT to the INTEGER of the other. */
  predicate Completes(t: IntegerType, u: IntegerType) {
    && ToLower(t.base) == "int" && ToLower(u.base) == "integer"
    && t.base + t.attributes == u.base + u.attributes
  }

  /** No other base begins another one. */
  lemma OnlyIntBeginsAnother(base: string, longer: string)
    requires HasDisplayWidth(ToLower(base)) && HasDisplayWidth(ToLower(longer))
    requires base < longer
    ensures ToLower(base) == "int" && ToLower(longer) == "integer"
  {
    var short, long := ToLower(base), ToLower(longer);
    assert forall i :: 0 <= i < |short| ==> short[i] == long[i];
    assert |short| < |long|;
    assert short[0] == long[0] && short[1] == long[1] && short[2] == long[2];
  }

  lemma RunTogether(t: IntegerType, u: IntegerType)
    requires t.Valid() && u.Valid() && t.base + t.attributes == u.base + u.attributes
    ensures (t.base == u.base && t.attributes == u.attributes) || Completes(t, u) || Completes(u, t)
  {
    hide ToLower, HasDisplayWidth;
    var text := t.base + t.attributes;
    assert text[..|t.base|] == t.base && text[|t.base|..] == t.attributes;
    assert text[..|u.base|] == u.base && text[|u.base|..] == u.attributes;
    if |t.base| < |u.base| {
      OnlyIntBeginsAnother(t.base, u.base);
    } else if |u.base| < |t.base| {
      OnlyIntBeginsAnother(u.base, t.base);
    }
  }

  /**
  Two integer types normalise alike exactly when base, attributes and retained width agree,
  or neither retains a width and one spells the other by completing INT to INTEGER.
  */
  lemma NormalFormsDecideEquality(t: IntegerType, u: IntegerType)
    requires t.Valid() && u.Valid()
    ensures NormalizeColumnType(t.Text()) == NormalizeColumnType(u.Text()) <==>
            && t.Retained() == u.Retained()
            && (|| (t.base == u.base && t.attributes == u.attributes)
                || (t.Retained().None? && (Completes(t, u) || Completes(u, t))))
  {
    hide NormalizeColumnType, Completes;
    NormalizesParts(t);
    NormalizesParts(u);
    TextsAgree(t.Normal(), u.Normal());
    if t.base + t.attributes == u.base + u.attributes {
      RunTogether(t, u);
    }
    CompletesRunsTogether(t, u);
    CompletesRunsTogether(u, t);
  }

  lemma CompletesRunsTogether(t: IntegerType, u: IntegerType)
    ensures Completes(t, u) ==> t.base + t.attributes == u.base + u.attributes
  {
  }

  /** Set off by a space, as the server writes them, attributes complete nothing. */
  lemma SpacedFormsDecideEquality(t: IntegerType, u: IntegerType)
    requires t.Valid() && u.Valid() && t.Spaced() && u.Spaced()
    ensures NormalizeColumnType(t.Text()) == NormalizeColumnType(u.Text()) <==>
            t.base == u.base && t.attributes == u.attributes && t.Retained() == u.Retained()
  {
    hide NormalizeColumnType;
    NormalFormsDecideEquality(t, u);
    SpacedNeverCompletes(t, u);
    SpacedNeverCompletes(u, t);
  }

  lemma SpacedNeverCompletes(t: IntegerType, u: IntegerType)
    requires t.Spaced() && u.Valid()
    ensures !Completes(t, u)
  {
    hide HasDisplayWidth;
    if ToLower(t.base) == "int" && ToLower(u.base) == "integer" {
      assert |t.base| == 3 && |u.base| == 7;
      assert LowerChar(u.base[3]) == ToLower(u.base)[3] == 'e';
      assert (u.base + u.attributes)[3] == u.base[3] != ' ';
      if t.attributes != "" {
        assert (t.base + t.attributes)[3] == t.attributes[0];
      }
    }
  }

  /** Run together, the two cases above do meet. */
  lemma RunTogetherTypesCollide()
    ensures NormalizeColumnType("int(5)eger") == NormalizeColumnType("integer")
  {
    hide NormalizeColumnType;
    var t, u := IntegerType("int", Some("5"), "eger"), IntegerType("integer", None, "");
    assert ToLower("int") == "int" && ToLower("integer") == "integer";
    PlainInt("5", "eger");
    assert t.Text() == "int(5)eger" && u.Text() == "integer";
    assert t.base + t.attributes == "integer" == u.base + u.attributes;
    NormalFormsDecideEquality(t, u);
  }
}
