/** Foreign-key constraints and the encodings shared by the sources that report them. */
module ForeignKeys {
  import opened Outcomes

  datatype ForeignKey = ForeignKey(
    constraintName: string,
    childSchema: string,
    childTable: string,
    childColumns: seq<string>,
    parentSchema: string,
    parentTable: string,
    parentColumns: seq<string>,
    onDelete: Rule,
    onUpdate: Rule,
    indexed: bool
  )

  // ---------------------------------------------------------------------------
  // `schema/name` in one column.

  /** Position of the first `/`, or the length when there is none. */
  function FirstSlash(value: string): (index: nat)
    ensures index <= |value|
    ensures forall i :: 0 <= i < index ==> value[i] != '/'
    ensures index < |value| ==> value[index] == '/'
  {
    if value == "" || value[0] == '/' then
      0
    else
      FirstSlash(value[1..]) + 1
  }

  function SplitInnoDBName(value: string): Option<(string, string)> {
    var index := FirstSlash(value);
    if index == 0 || index >= |value| - 1 then None
    else Some((value[..index], value[index + 1..]))
  }

  function JoinInnoDBName(left: string, right: string): string {
    left + "/" + right
  }

  /** Splitting undoes joining, and accepts nothing else. */
  lemma SplitIsJoinUndone(value: string, left: string, right: string)
    ensures SplitInnoDBName(value) == Some((left, right)) <==>
            value == left + "/" + right && left != "" && '/' !in left && right != ""
  {
    var index := FirstSlash(value);
    if SplitInnoDBName(value) == Some((left, right)) {
      assert value == value[..index] + [value[index]] + value[index + 1..];
    }
    if value == JoinInnoDBName(left, right) && left != "" && '/' !in left && right != "" {
      assert value[|left|] == '/';
      assert forall i :: 0 <= i < |left| ==> value[i] == left[i] != '/';
      assert value[..index] == left && value[index + 1..] == right;
    }
  }

  lemma JoinIsInjective(left: string, right: string, left': string, right': string)
    requires JoinInnoDBName(left, right) == JoinInnoDBName(left', right')
    requires left != "" && '/' !in left && right != "" && left' != "" && '/' !in left' && right' != ""
    ensures left == left' && right == right'
  {
    var value := JoinInnoDBName(left, right);
    SplitIsJoinUndone(value, left, right);
    SplitIsJoinUndone(value, left', right');
    assert SplitInnoDBName(value).value.0 == left' && SplitInnoDBName(value).value.1 == right';
  }

  /** The value has a nonempty part on either side of its first slash. */
  ghost predicate TwoParts(value: string) {
    exists left, right :: value == left + "/" + right && left != "" && '/' !in left && right != ""
  }

  lemma SplitsTwoParts(value: string)
    ensures SplitInnoDBName(value).Some? <==> TwoParts(value)
  {
    if SplitInnoDBName(value).Some? {
      var (left, right) := SplitInnoDBName(value).value;
      SplitIsJoinUndone(value, left, right);
    }
    if TwoParts(value) {
      var left, right :| value == left + "/" + right && left != "" && '/' !in left && right != "";
      SplitIsJoinUndone(value, left, right);
    }
  }

  // ---------------------------------------------------------------------------
  // Referential actions packed in flag bits.

  /** A referential action by its spelling; the sources spell four of them. */
  datatype Rule = Cascade | SetNull | NoAction | Restrict | OtherRule(spelling: string)
  {
    predicate Stored() {
      !OtherRule?
    }
  }

  datatype RuleFlag = RuleFlag(flag: bv64, rule: Rule)

  const KNOWN_FLAGS: bv64 := 63
  const DELETE_FLAGS := [RuleFlag(1, Cascade), RuleFlag(2, SetNull), RuleFlag(16, NoAction)]
  const UPDATE_FLAGS := [RuleFlag(4, Cascade), RuleFlag(8, SetNull), RuleFlag(32, NoAction)]

  predicate HasBit(flags: bv64, flag: bv64) {
    flags & flag != 0
  }

  /** The choices whose flag is set, in order. */
  function Hits(flags: bv64, choices: seq<RuleFlag>): seq<Rule> {
    if choices == [] then
      []
    else
      var last := choices[|choices| - 1];
      Hits(flags, choices[..|choices| - 1]) + if HasBit(flags, last.flag) then [last.rule] else []
  }

  /** The one choice set, the default when none is, no answer when several are. */
  function RuleOf(flags: bv64, choices: seq<RuleFlag>): Option<Rule> {
    var hits := Hits(flags, choices);
    if |hits| == 0 then Some(Restrict) else if |hits| == 1 then Some(hits[0]) else None
  }

  method DecodeForeignKeyRule(flags: bv64, choices: seq<RuleFlag>) returns (decoded: Option<Rule>)
    ensures decoded == RuleOf(flags, choices)
  {
    var rule, found := Restrict, false;
    for i := 0 to |choices|
      invariant Hits(flags, choices[..i]) == if found then [rule] else []
      invariant !found ==> rule == Restrict
    {
      var choice := choices[i];
      assert choices[..i + 1][..i] == choices[..i];
      if !HasBit(flags, choice.flag) {
        continue;
      }
      if found {
        HitsPrefix(flags, choices, i + 1);
        return None;
      }
      rule, found := choice.rule, true;
    }
    assert choices[..|choices|] == choices;
    return Some(rule);
  }

  lemma {:induction false} HitsPrefix(flags: bv64, choices: seq<RuleFlag>, i: nat)
    requires i <= |choices|
    ensures |Hits(flags, choices[..i])| <= |Hits(flags, choices)|
  {
    if i == |choices| {
      assert choices[..i] == choices;
    } else {
      var before := choices[..|choices| - 1];
      assert choices[..i] == before[..i];
      HitsPrefix(flags, before, i);
    }
  }

  /** Both rules, or nothing for unknown bits or mutually exclusive ones. */
  function Rules(flags: bv64): Option<(Rule, Rule)> {
    if flags & !KNOWN_FLAGS != 0 then None
    else
      match (RuleOf(flags, DELETE_FLAGS), RuleOf(flags, UPDATE_FLAGS))
      case (Some(deleteRule), Some(updateRule)) => Some((deleteRule, updateRule))
      case _ => None
  }

  method DecodeInnoDBForeignKeyRules(flags: bv64) returns (decoded: Option<(Rule, Rule)>)
    ensures decoded == Rules(flags)
  {
    if flags & !KNOWN_FLAGS != 0 {
      return None;
    }
    var deleteRule := DecodeForeignKeyRule(flags, DELETE_FLAGS);
    if deleteRule.None? {
      return None;
    }
    var updateRule := DecodeForeignKeyRule(flags, UPDATE_FLAGS);
    if updateRule.None? {
      return None;
    }
    return Some((deleteRule.value, updateRule.value));
  }

  /** The flag bits InnoDB stores for a pair of rules. */
  function Flags(deleteRule: Rule, updateRule: Rule): bv64 {
    DeleteFlag(deleteRule) | UpdateFlag(updateRule)
  }

  function DeleteFlag(rule: Rule): bv64 {
    match rule
    case Cascade => 1
    case SetNull => 2
    case NoAction => 16
    case _ => 0
  }

  function UpdateFlag(rule: Rule): bv64 {
    match rule
    case Cascade => 4
    case SetNull => 8
    case NoAction => 32
    case _ => 0
  }

  lemma HitsOfThree(flags: bv64, a: RuleFlag, b: RuleFlag, c: RuleFlag)
    ensures Hits(flags, [a, b, c]) ==
            (if HasBit(flags, a.flag) then [a.rule] else []) +
            (if HasBit(flags, b.flag) then [b.rule] else []) +
            (if HasBit(flags, c.flag) then [c.rule] else [])
  {
    HitsAppend(flags, [a, b], c);
    HitsAppend(flags, [a], b);
    HitsAppend(flags, [], a);
    assert [a, b] + [c] == [a, b, c] && [a] + [b] == [a, b] && [] + [a] == [a];
  }

  lemma HitsAppend(flags: bv64, choices: seq<RuleFlag>, last: RuleFlag)
    ensures Hits(flags, choices + [last]) ==
            Hits(flags, choices) + if HasBit(flags, last.flag) then [last.rule] else []
  {
    var all := choices + [last];
    assert all[..|all| - 1] == choices;
  }

  /** One bit of a word, chosen by a test on it. */
  function Bit(x: bv64, mask: bv64): bv64 {
    if x & mask == 0 then 0 else mask
  }

  /** Masking with a known flag leaves that flag or nothing. */
  lemma MaskedIsBit(x: bv64)
    ensures x & 1 == Bit(x, 1) && x & 2 == Bit(x, 2) && x & 4 == Bit(x, 4)
    ensures x & 8 == Bit(x, 8) && x & 16 == Bit(x, 16) && x & 32 == Bit(x, 32)
  {
    assert x & 1 == 0 || x & 1 == 1;
    assert x & 2 == 0 || x & 2 == 2;
    assert x & 4 == 0 || x & 4 == 4;
    assert x & 8 == 0 || x & 8 == 8;
    assert x & 16 == 0 || x & 16 == 16;
    assert x & 32 == 0 || x & 32 == 32;
  }

  lemma WordOfMasks(flags: bv64)
    requires flags & !KNOWN_FLAGS == 0
    ensures flags == (flags & 1) | (flags & 2) | (flags & 4) | (flags & 8) | (flags & 16) | (flags & 32)
  {
  }

  /** Which bits are set determines an accepted word. */
  lemma BitsOfWord(flags: bv64)
    requires flags & !KNOWN_FLAGS == 0
    ensures flags == Bit(flags, 1) | Bit(flags, 2) | Bit(flags, 4) | Bit(flags, 8) | Bit(flags, 16) | Bit(flags, 32)
  {
    hide Bit;
    WordOfMasks(flags);
    MaskedIsBit(flags);
  }

  lemma DeleteRuleOf(flags: bv64)
    ensures RuleOf(flags, DELETE_FLAGS) ==
            if flags & 1 != 0 then (if flags & 2 == 0 && flags & 16 == 0 then Some(Cascade) else None)
            else if flags & 2 != 0 then (if flags & 16 == 0 then Some(SetNull) else None)
            else if flags & 16 != 0 then Some(NoAction)
            else Some(Restrict)
  {
    HitsOfThree(flags, RuleFlag(1, Cascade), RuleFlag(2, SetNull), RuleFlag(16, NoAction));
  }

  lemma UpdateRuleOf(flags: bv64)
    ensures RuleOf(flags, UPDATE_FLAGS) ==
            if flags & 4 != 0 then (if flags & 8 == 0 && flags & 32 == 0 then Some(Cascade) else None)
            else if flags & 8 != 0 then (if flags & 32 == 0 then Some(SetNull) else None)
            else if flags & 32 != 0 then Some(NoAction)
            else Some(Restrict)
  {
    HitsOfThree(flags, RuleFlag(4, Cascade), RuleFlag(8, SetNull), RuleFlag(32, NoAction));
  }

  /** Decoding is a bijection between the accepted flag words and the sixteen pairs of rules. */
  lemma RulesAreFlagsUndone(flags: bv64, deleteRule: Rule, updateRule: Rule)
    ensures Rules(flags) == Some((deleteRule, updateRule)) <==>
            deleteRule.Stored() && updateRule.Stored() && flags == Flags(deleteRule, updateRule)
  {
    DeleteRuleOf(flags);
    UpdateRuleOf(flags);
    if flags & !KNOWN_FLAGS == 0 {
      BitsOfWord(flags);
    }
  }

  /** The word of a pair of rules, bit by bit: 1, 2 and 16 for deletes, 4, 8 and 32 for updates. */
  lemma FlagsByBit(deleteRule: Rule, updateRule: Rule)
    ensures Flags(deleteRule, updateRule) ==
            (if deleteRule == Cascade then 1 else if deleteRule == SetNull then 2 else if deleteRule == NoAction then 16
             else 0) |
            (if updateRule == Cascade then 4 else if updateRule == SetNull then 8 else if updateRule == NoAction then 32
             else 0)
  {
  }

  /** What makes a word unreadable: an unknown bit, or two actions for one event. */
  lemma UnreadableFlags(flags: bv64)
    ensures Rules(flags).None? <==>
            || flags & !63 != 0
            || (flags & 1 != 0 && flags & 2 != 0) || (flags & 1 != 0 && flags & 16 != 0)
            || (flags & 2 != 0 && flags & 16 != 0)
            || (flags & 4 != 0 && flags & 8 != 0) || (flags & 4 != 0 && flags & 32 != 0)
            || (flags & 8 != 0 && flags & 32 != 0)
  {
    DeleteRuleOf(flags);
    UpdateRuleOf(flags);
  }
}
