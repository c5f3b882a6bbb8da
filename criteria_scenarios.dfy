/** A worked criteria text, evaluated through the criteria parser's definitions step by step. */
module CriteriaScenarios {
  import opened Wrappers
  import opened Text
  import opened CriteriaParser

  // ---------------------------------------------------------------- splitting and stripping

  /** Splitting a string that starts with separator-free text `a` extends the first piece by `a`. */
  lemma {:induction false} SplitPrefix(a: string, t: string, seps: set<char>)
    requires NoneIn(a, seps)
    ensures Split(a + t, seps) == [a + Split(t, seps)[0]] + Split(t, seps)[1..]
    decreases |a|
  {
    var rest := Split(t, seps);
    if a == [] {
      assert a + t == t && a + rest[0] == rest[0];
    } else {
      var s := a + t;
      assert s[0] == a[0] && s[1..] == a[1..] + t;
      SplitPrefix(a[1..], t, seps);
      assert [a[0]] + (a[1..] + rest[0]) == a + rest[0];
    }
  }

  /** Text without a separator is one piece. */
  lemma SplitPlain(s: string, seps: set<char>)
    requires NoneIn(s, seps)
    ensures Split(s, seps) == [s]
  {
    SplitPrefix(s, [], seps);
    assert s + [] == s;
  }

  /** Two separator-free texts around one separator are two pieces. */
  lemma SplitAround(a: string, sep: char, b: string, seps: set<char>)
    requires NoneIn(a, seps) && sep in seps && NoneIn(b, seps)
    ensures Split(a + [sep] + b, seps) == [a, b]
  {
    assert a + [sep] + b == a + ([sep] + b);
    SplitPrefix(a, [sep] + b, seps);
    assert ([sep] + b)[1..] == b;
    SplitPlain(b, seps);
    assert a + [] == a;
  }

  /** Text that neither starts nor ends with whitespace is its own strip. */
  lemma StripTrimmed(s: string)
    requires s != [] && !IsSpace(s[0]) && !IsSpace(s[|s| - 1])
    ensures Strip(s) == s && TrimStart(s) == s && TrimEnd(s) == s
  {
    assert RunLength(s, IsSpace) == 0;
  }

  /** Removing characters `s` does not hold leaves `s`. */
  lemma {:induction false} WithoutNone(s: string, cs: set<char>)
    requires NoneIn(s, cs)
    ensures Without(s, cs) == s
    decreases |s|
  {
    if s != [] {
      WithoutNone(s[1..], cs);
      assert [s[0]] + s[1..] == s;
    }
  }

  /** Operator characters in front of operator-free text are all removed. */
  lemma {:induction false} WithoutOperators(ops: string, name: string)
    requires forall i :: 0 <= i < |ops| ==> ops[i] in Operators
    requires NoneIn(name, Operators)
    ensures Without(ops + name, Operators) == name
    decreases |ops|
  {
    if ops == [] {
      assert ops + name == name;
      WithoutNone(name, Operators);
    } else {
      assert (ops + name)[0] == ops[0] && (ops + name)[1..] == ops[1..] + name;
      WithoutOperators(ops[1..], name);
    }
  }

  // ---------------------------------------------------------------- one clause

  /** The operator in front of a value item: `限` includes, `限非` excludes. */
  predicate IsOperator(op: string) {
    op == ['限'] || op == ['限', '非']
  }

  /** A value written as an operator and one clean item gives that item alone. */
  lemma ValueOfItem(op: string, name: string)
    requires IsOperator(op) && CleanItem(name)
    ensures ValueItems(op + name) == [name]
  {
    RemoveOperatorsDropsBoth(op + name);
    WithoutOperators(op, name);
    assert RemoveOperators(op + name) == name;
    SplitPlain(name, ListSeps);
    StripTrimmed(name);
    assert [name][..0] == [];
    assert NonEmptyItems([name]) == NonEmptyItems([]) + [name];
  }

  /** `限` followed by operator-free text includes; `限非` excludes. */
  lemma ModeOfOperator(category: Category, op: string, name: string)
    requires IsOperator(op) && NoneIn(name, Operators)
    ensures ModeOf(category, op + name) == if op == ['限'] then Include else Exclude
  {
    var v := op + name;
    ModeExcludes(category, v);
    if op == ['限'] {
      forall i | 0 <= i < |v| ensures v[i] != '非' {
        if i > 0 { assert v[i] == name[i - 1]; }
      }
    } else {
      assert v[..2] == "限非";
      assert StartsWith(v, "限非");
    }
  }

  /** The first colon of `key:rest`, for a key without one, is right after the key. */
  lemma {:induction false} ColonAfterKey(key: string, rest: string)
    requires ':' !in key
    ensures ':' in key + [':'] + rest && IndexOf(key + [':'] + rest, ':') == |key|
    decreases |key|
  {
    var cond := key + [':'] + rest;
    assert cond[|key|] == ':';
    if key != [] {
      assert cond[0] == key[0] && cond[1..] == key[1..] + [':'] + rest;
      ColonAfterKey(key[1..], rest);
    }
  }

  /** A clause with one half-width colon splits at it. */
  lemma SplitClauseAt(key: string, rest: string)
    requires ':' !in key
    ensures SplitClause(key + [':'] + rest) == Some((Strip(key), Strip(rest)))
  {
    var cond := key + [':'] + rest;
    ColonAfterKey(key, rest);
    assert cond[..|key|] == key && cond[|key| + 1..] == rest;
  }

  /** `key:限item` splits into the key and the value. */
  lemma ClauseHalves(key: string, op: string, name: string)
    requires ':' !in key && Strip(key) == key
    requires IsOperator(op) && CleanItem(name)
    ensures SplitClause(key + [':'] + (op + name)) == Some((key, op + name))
  {
    var v := op + name;
    SplitClauseAt(key, v);
    OperatorItemTrimmed(op, name);
  }

  /** An operator followed by a clean item neither starts nor ends with whitespace. */
  lemma OperatorItemTrimmed(op: string, name: string)
    requires IsOperator(op) && CleanItem(name)
    ensures Strip(op + name) == op + name
  {
    var v := op + name;
    assert v[0] == '限' && v[|v| - 1] == name[|name| - 1];
    StripTrimmed(v);
  }

  /** The value `限item` or `限非item` of a list category stores that one item. */
  lemma ValueOfClause(category: Category, op: string, name: string)
    requires IsOperator(op) && CleanItem(name) && category != Parity
    ensures ClauseValue(category, op + name) ==
      ListRule(if op == ['限'] then Include else Exclude, [if category == Grade then GradeNumber(name) else name])
  {
    var v := op + name;
    ValueOfItem(op, name);
    ModeOfOperator(category, op, name);
    var items := ValueItems(v);
    assert seq(|items|, i requires 0 <= i < |items| => GradeNumber(items[i])) == [GradeNumber(name)];
  }

  /**
    A clause `key:限item` or `key:限非item` outside the student-ID category stores that one
    item (as a digit for a grade word) with mode include or exclude.
   */
  lemma ListClause(key: string, op: string, name: string)
    requires ':' !in key && Strip(key) == key
    requires IsOperator(op) && CleanItem(name)
    requires Classify(key) != Parity
    ensures ParseClause(key + [':'] + (op + name)) ==
      Some(Rule(Classify(key), ListRule(
        if op == ['限'] then Include else Exclude,
        [if Classify(key) == Grade then GradeNumber(name) else name])))
  {
    var v := op + name;
    ClauseHalves(key, op, name);
    var c := Classify(key);
    assert ParseClause(key + [':'] + v) == Some(Rule(c, ClauseValue(c, v)));
    ValueOfClause(c, op, name);
  }

  // ---------------------------------------------------------------- one group

  /** Two clauses joined by `。` are split back into the two. */
  lemma TwoClauses(c1: string, c2: string)
    requires NoneIn(c1, Terminators) && NoneIn(c2, Terminators) && c2 != [] && !IsSpace(c2[0])
    ensures ClauseSplit(c1 + ['。'] + c2) == [c1, c2]
  {
    SplitAround(c1, '。', c2, Terminators);
    assert RunLength(c2, IsSpace) == 0;
  }

  /** A well-formed clause after others assigns its entry into their dictionary. */
  lemma FillStep(cs: seq<string>, c: string, r: Rule)
    requires ParseClause(c) == Some(r)
    ensures Fill(cs + [c]) == Assign(Fill(cs), r)
  {
    assert (cs + [c])[..|cs|] == cs && (cs + [c])[|cs|] == c;
  }

  /** One well-formed clause fills one entry. */
  lemma FillOne(c: string, r: Rule)
    requires ParseClause(c) == Some(r)
    ensures Fill([c]) == [r]
  {
    FillStep([], c, r);
    assert [] + [c] == [c];
  }

  /** Two well-formed clauses of different categories fill two entries, in clause order. */
  lemma FillTwo(c1: string, c2: string, r1: Rule, r2: Rule)
    requires ParseClause(c1) == Some(r1) && ParseClause(c2) == Some(r2) && r1.category != r2.category
    ensures Fill([c1, c2]) == [r1, r2]
  {
    FillOne(c1, r1);
    FillSecond(c1, c2, r2);
    AssignSecond(r1, r2);
  }

  /** A well-formed second clause assigns its entry into the dictionary of the first. */
  lemma FillSecond(c1: string, c2: string, r2: Rule)
    requires ParseClause(c2) == Some(r2)
    ensures Fill([c1, c2]) == Assign(Fill([c1]), r2)
  {
    FillStep([c1], c2, r2);
    assert [c1] + [c2] == [c1, c2];
  }

  /** A second category is appended after the first. */
  lemma AssignSecond(r1: Rule, r2: Rule)
    requires r1.category != r2.category
    ensures Assign([r1], r2) == [r1, r2]
  {
    assert [r1][1..] == [];
  }

  // ---------------------------------------------------------------- the whole text

  /** ` | ` between two trimmed bar-free texts splits them apart, with the spaces eaten. */
  lemma BarBetween(g1: string, g2: string)
    requires g1 != [] && !IsSpace(g1[0]) && !IsSpace(g1[|g1| - 1]) && NoneIn(g1, Bars)
    requires g2 != [] && !IsSpace(g2[0]) && !IsSpace(g2[|g2| - 1]) && NoneIn(g2, Bars)
    ensures BarSplit(g1 + ([' '] + (['|'] + ([' '] + g2)))) == [g1, g2]
  {
    var left, right := g1 + [' '], [' '] + g2;
    var text := g1 + ([' '] + (['|'] + ([' '] + g2)));
    assert text == left + ['|'] + right;
    assert NoneIn(left, Bars) by {
      forall i | 0 <= i < |left| ensures left[i] !in Bars {
        if i < |g1| { assert left[i] == g1[i]; }
      }
    }
    assert NoneIn(right, Bars) by {
      forall i | 0 <= i < |right| ensures right[i] !in Bars {
        if i > 0 { assert right[i] == g2[i - 1]; }
      }
    }
    SplitAround(left, '|', right, Bars);
    StripTrimmed(g1);
    assert TrimEnd(left) == g1 by { assert left[..|left| - 1] == g1; }
    assert TrimStart(right) == g2 by {
      assert right[1..] == g2;
      assert RunLength(g2, IsSpace) == 0;
    }
  }

  /** Two non-blank trimmed groups are both kept. */
  lemma NonBlankTwo(g1: string, g2: string)
    requires g1 != [] && !IsSpace(g1[0]) && !IsSpace(g1[|g1| - 1])
    requires g2 != [] && !IsSpace(g2[0]) && !IsSpace(g2[|g2| - 1])
    ensures NonBlank([g1, g2]) == [g1, g2]
  {
    StripTrimmed(g1);
    StripTrimmed(g2);
    NonBlankAppend([g1], [g2]);
    NonBlankOne(g1);
    NonBlankOne(g2);
    assert [g1] + [g2] == [g1, g2];
  }

  /** Two trimmed groups around ` | ` make a text that is its own strip and no sentinel. */
  lemma TextNotSentinel(g1: string, g2: string)
    requires g1 != [] && !IsSpace(g1[0]) && g2 != [] && !IsSpace(g2[|g2| - 1])
    ensures var text := g1 + ([' '] + (['|'] + ([' '] + g2)));
      text != [] && Strip(text) == text && !IsSentinel(text)
  {
    var text := g1 + ([' '] + (['|'] + ([' '] + g2)));
    assert text[0] == g1[0] && text[|text| - 1] == g2[|g2| - 1];
    StripTrimmed(text);
    assert |text| >= 5;
  }

  /** Two groups around ` | `: each is parsed on its own, in order. */
  lemma TwoGroups(g1: string, g2: string)
    requires g1 != [] && !IsSpace(g1[0]) && !IsSpace(g1[|g1| - 1]) && NoneIn(g1, Bars)
    requires g2 != [] && !IsSpace(g2[0]) && !IsSpace(g2[|g2| - 1]) && NoneIn(g2, Bars)
    ensures CriteriaGroups(g1 + ([' '] + (['|'] + ([' '] + g2)))) == [ParseGroup(g1), ParseGroup(g2)]
  {
    var text := g1 + ([' '] + (['|'] + ([' '] + g2)));
    TextNotSentinel(g1, g2);
    BarBetween(g1, g2);
    NonBlankTwo(g1, g2);
    GroupsOfTwo(g1, g2);
  }

  /** Two groups are parsed each on its own, in order. */
  lemma GroupsOfTwo(g1: string, g2: string)
    ensures GroupsOf([g1, g2]) == [ParseGroup(g1), ParseGroup(g2)]
  {
    var gs := GroupsOf([g1, g2]);
    assert gs[0] == ParseGroup(g1) && gs[1] == ParseGroup(g2);
  }

  /** A numbered group in brackets with two clauses of different categories. */
  lemma GroupOfTwo(n: nat, c1: string, c2: string, r1: Rule, r2: Rule)
    requires PlainBody(c1 + ['。'] + c2)
    requires NoneIn(c1, Terminators) && NoneIn(c2, Terminators) && c2 != [] && !IsSpace(c2[0])
    requires ParseClause(c1) == Some(r1) && ParseClause(c2) == Some(r2) && r1.category != r2.category
    ensures ParseGroup(['('] + Decimal(n) + [')'] + (c1 + ['。'] + c2)) == RuleGroup(n, [r1, r2])
  {
    ExplicitPriority(n, '(', [')'], c1 + ['。'] + c2);
    GroupRulesTwo(c1, c2, r1, r2);
  }

  /** The dictionary of a two-clause group. */
  lemma GroupRulesTwo(c1: string, c2: string, r1: Rule, r2: Rule)
    requires NoneIn(c1, Terminators) && NoneIn(c2, Terminators) && c2 != [] && !IsSpace(c2[0])
    requires ParseClause(c1) == Some(r1) && ParseClause(c2) == Some(r2) && r1.category != r2.category
    ensures GroupRules(c1 + ['。'] + c2) == [r1, r2]
  {
    TwoClauses(c1, c2);
    FillTwo(c1, c2, r1, r2);
  }

  /** A numbered group in brackets with one clause. */
  lemma GroupOfOne(n: nat, c: string, r: Rule)
    requires PlainBody(c) && NoneIn(c, Terminators) && ParseClause(c) == Some(r)
    ensures ParseGroup(['('] + Decimal(n) + [')'] + c) == RuleGroup(n, [r])
  {
    ExplicitPriority(n, '(', [')'], c);
    GroupRulesOne(c, r);
  }

  /** The dictionary of a one-clause group. */
  lemma GroupRulesOne(c: string, r: Rule)
    requires NoneIn(c, Terminators) && ParseClause(c) == Some(r)
    ensures GroupRules(c) == [r]
  {
    SplitPlain(c, Terminators);
    assert ClauseSplit(c) == [c];
    FillOne(c, r);
  }

  // ---------------------------------------------------------------- the worked text

  lemma DeptKey()
    ensures Classify("系") == Dept && ':' !in "系" && Strip("系") == "系"
  {
  }

  lemma GradeKey()
    ensures Classify("年") == Grade && ':' !in "年" && Strip("年") == "年"
  {
    ContainsChar("年", '系');
    ContainsChar("年", '院');
    ContainsChar("年", '年');
  }

  /**
    A clause spelled out as `key:` followed by an operator and a clean item, outside the
    student-ID category, parses as `ListClause` says.
   */
  lemma ClauseOfParts(c: string, key: string, op: string, name: string)
    requires c == key + [':'] + (op + name)
    requires ':' !in key && Strip(key) == key
    requires IsOperator(op) && CleanItem(name)
    requires Classify(key) != Parity
    ensures ParseClause(c) ==
      Some(Rule(Classify(key), ListRule(
        if op == ['限'] then Include else Exclude,
        [if Classify(key) == Grade then GradeNumber(name) else name])))
  {
    ListClause(key, op, name);
  }

  /** `系:限機械工程學系`: the department limited to 機械工程學系. */
  lemma MechanicalClause(c: string)
    requires c == "系:限機械工程學系"
    ensures ParseClause(c) == Some(Rule(Dept, ListRule(Include, ["機械工程學系"])))
  {
    DeptKey();
    ClauseOfParts(c, "系", "限", "機械工程學系");
  }

  /** The grade word `三年級` is grade 3. */
  lemma ThirdYearWord()
    ensures GradeNumber("三年級") == "3"
  {
    assert "三年級"[0] != "一年級"[0];
    assert "三年級"[0] != "二年級"[0];
  }

  /** `年:限三年級`: the grade limited to 3. */
  lemma ThirdYearClause(c: string)
    requires c == "年:限三年級"
    ensures ParseClause(c) == Some(Rule(Grade, ListRule(Include, ["3"])))
  {
    GradeKey();
    ThirdYearWord();
    ClauseOfParts(c, "年", "限", "三年級");
  }

  /** `系:限非電機工程學系`: every department but 電機工程學系. */
  lemma NotElectricalClause(c: string)
    requires c == "系:限非電機工程學系"
    ensures ParseClause(c) == Some(Rule(Dept, ListRule(Exclude, ["電機工程學系"])))
  {
    DeptKey();
    ClauseOfParts(c, "系", "限非", "電機工程學系");
  }

  /** `(1)系:限機械工程學系。年:限三年級`: priority 1, department 機械工程學系 and grade 3. */
  lemma FirstGroup(g: string)
    requires g == "(1)系:限機械工程學系。年:限三年級"
    ensures ParseGroup(g) ==
      RuleGroup(1, [Rule(Dept, ListRule(Include, ["機械工程學系"])), Rule(Grade, ListRule(Include, ["3"]))])
  {
    var c1, c2 := "系:限機械工程學系", "年:限三年級";
    FirstGroupParts(g, c1, c2);
    MechanicalClause(c1);
    ThirdYearClause(c2);
    GroupOfTwo(1, c1, c2, Rule(Dept, ListRule(Include, ["機械工程學系"])), Rule(Grade, ListRule(Include, ["3"])));
  }

  /** The first group is `(1)` followed by its two clauses joined by `。`. */
  lemma FirstGroupParts(g: string, c1: string, c2: string)
    requires g == "(1)系:限機械工程學系。年:限三年級"
    requires c1 == "系:限機械工程學系" && c2 == "年:限三年級"
    ensures PlainBody(c1 + ['。'] + c2)
    ensures NoneIn(c1, Terminators) && NoneIn(c2, Terminators) && c2 != [] && !IsSpace(c2[0])
    ensures g == ['('] + Decimal(1) + [')'] + (c1 + ['。'] + c2)
  {
    assert PlainBody(c1 + ['。'] + c2);
    assert Decimal(1) == "1";
  }

  /** `(2)系:限非電機工程學系`: priority 2, every department but 電機工程學系. */
  lemma SecondGroup(g: string)
    requires g == "(2)系:限非電機工程學系"
    ensures ParseGroup(g) == RuleGroup(2, [Rule(Dept, ListRule(Exclude, ["電機工程學系"]))])
  {
    var c := "系:限非電機工程學系";
    assert PlainBody(c) && NoneIn(c, Terminators);
    assert Decimal(2) == "2";
    assert g == ['('] + Decimal(2) + [')'] + c;
    NotElectricalClause(c);
    GroupOfOne(2, c, Rule(Dept, ListRule(Exclude, ["電機工程學系"])));
  }

  /**
    `(1)系:限機械工程學系。年:限三年級 | (2)系:限非電機工程學系`: group 1 limits the department
    to 機械工程學系 and the grade to 3; group 2 excludes 電機工程學系.
   */
  lemma CriteriaExample(text: string)
    requires text == "(1)系:限機械工程學系。年:限三年級 | (2)系:限非電機工程學系"
    ensures CriteriaGroups(text) == [
      RuleGroup(1, [Rule(Dept, ListRule(Include, ["機械工程學系"])), Rule(Grade, ListRule(Include, ["3"]))]),
      RuleGroup(2, [Rule(Dept, ListRule(Exclude, ["電機工程學系"]))])]
  {
    var g1 := "(1)系:限機械工程學系。年:限三年級";
    var g2 := "(2)系:限非電機工程學系";
    assert text == g1 + ([' '] + (['|'] + ([' '] + g2)));
    TwoGroups(g1, g2);
    FirstGroup(g1);
    SecondGroup(g2);
  }
}
