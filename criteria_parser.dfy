/**
  The registration-criteria parser: text such as
  `(1)系:限機械工程學系。年:限三年級 | (2)系:限非電機工程學系` becomes a list of rule groups,
  each with a priority and at most one rule per category. The splits, the priority prefix
  and the operator removal are scans over the characters; the loops over groups and clauses
  are methods proved against the functions that specify them.
 */
module CriteriaParser {
  import opened Wrappers
  import opened Text
  import opened Seqs

  /** The closed set of rule categories. */
  datatype Category = Dept | Grade | Class | Parity | Identity | System | Prerequisite | Limit | Other

  /** The key under which a category is written in the output record. */
  function CategoryKey(c: Category): string {
    match c
    case Dept => "dept"
    case Grade => "grade"
    case Class => "class"
    case Parity => "parity"
    case Identity => "identity"
    case System => "system"
    case Prerequisite => "prerequisite"
    case Limit => "limit"
    case Other => "other"
  }

  datatype Mode = Include | Exclude

  /** Student-ID parity: `odd`, `even` or `all`. */
  datatype ParityKind = Odd | Even | All

  /** `{mode, values}` for every category but parity, `{mode, value}` for parity. */
  datatype RuleValue = ListRule(mode: Mode, values: seq<string>) | ParityRule(mode: Mode, parity: ParityKind)

  /** One entry of a group's `rules` dictionary. */
  datatype Rule = Rule(category: Category, value: RuleValue)

  /** `{priority, rules}`; `rules` is in dictionary order, first insertion first. */
  datatype RuleGroup = RuleGroup(priority: nat, rules: seq<Rule>)

  // ---------------------------------------------------------------- classifying a key

  /** The classification chain of the source: the first keyword test that succeeds decides. */
  function Classify(key: string): Category {
    if Contains(key, "系") || Contains(key, "院") then Dept
    else if Contains(key, "年") then Grade
    else if Contains(key, "班") then Class
    else if Contains(key, "學號") then Parity
    else if Contains(key, "身") then Identity
    else if Contains(key, "學制") then System
    else if Contains(key, "指定") || Contains(key, "先修") then Prerequisite
    else if Contains(key, "人數") || Contains(key, "上限") then Limit
    else Other
  }

  /** The same precedence as an ordered list of (keywords, category) rules. */
  const KeywordTable: seq<(seq<string>, Category)> := [
    (["系", "院"], Dept),
    (["年"], Grade),
    (["班"], Class),
    (["學號"], Parity),
    (["身"], Identity),
    (["學制"], System),
    (["指定", "先修"], Prerequisite),
    (["人數", "上限"], Limit)
  ]

  /** `key` contains one of `words`. */
  predicate MentionsAny(key: string, words: seq<string>) {
    exists i :: 0 <= i < |words| && Contains(key, words[i])
  }

  /** The category of the first row of `table` whose keywords `key` mentions, else `Other`. */
  function FirstMatch(table: seq<(seq<string>, Category)>, key: string): Category
    decreases |table|
  {
    if table == [] then Other
    else if MentionsAny(key, table[0].0) then table[0].1
    else FirstMatch(table[1..], key)
  }

  /** First-match semantics: the row chosen is mentioned and no earlier row is. */
  lemma {:induction false} FirstMatchIsFirst(table: seq<(seq<string>, Category)>, key: string)
    ensures (forall i :: 0 <= i < |table| ==> !MentionsAny(key, table[i].0)) ==> FirstMatch(table, key) == Other
    ensures (exists i :: 0 <= i < |table| && MentionsAny(key, table[i].0)) ==>
      exists i :: 0 <= i < |table| && MentionsAny(key, table[i].0) && FirstMatch(table, key) == table[i].1
        && forall j :: 0 <= j < i ==> !MentionsAny(key, table[j].0)
    decreases |table|
  {
    if table != [] {
      FirstMatchIsFirst(table[1..], key);
      if !MentionsAny(key, table[0].0) {
        if exists i :: 0 <= i < |table| && MentionsAny(key, table[i].0) {
          var i :| 0 <= i < |table| && MentionsAny(key, table[i].0);
          assert MentionsAny(key, table[1..][i - 1].0);
          var k :| 0 <= k < |table[1..]| && MentionsAny(key, table[1..][k].0) && FirstMatch(table[1..], key) == table[1..][k].1
            && forall j :: 0 <= j < k ==> !MentionsAny(key, table[1..][j].0);
          assert forall j :: 0 < j < k + 1 ==> table[j] == table[1..][j - 1];
          assert MentionsAny(key, table[k + 1].0) && FirstMatch(table, key) == table[k + 1].1;
        }
        assert (forall i :: 0 <= i < |table| ==> !MentionsAny(key, table[i].0)) ==>
          (forall i :: 0 <= i < |table[1..]| ==> !MentionsAny(key, table[1..][i].0));
      }
    }
  }

  lemma MentionsOne(key: string, a: string)
    ensures MentionsAny(key, [a]) <==> Contains(key, a)
  {
    var w := [a];
    assert w[0] == a;
  }

  lemma MentionsTwo(key: string, a: string, b: string)
    ensures MentionsAny(key, [a, b]) <==> Contains(key, a) || Contains(key, b)
  {
    var w := [a, b];
    if MentionsAny(key, w) {
      var i :| 0 <= i < |w| && Contains(key, w[i]);
      assert i == 0 || i == 1;
    }
    if Contains(key, a) { assert Contains(key, w[0]); }
    if Contains(key, b) { assert Contains(key, w[1]); }
  }

  /** The if-chain of the source and the ordered keyword table classify every key alike. */
  lemma ClassifyByTable(key: string)
    ensures Classify(key) == FirstMatch(KeywordTable, key)
  {
    var t := KeywordTable;
    MentionsTwo(key, "系", "院");
    MentionsOne(key, "年");
    MentionsOne(key, "班");
    MentionsOne(key, "學號");
    MentionsOne(key, "身");
    MentionsOne(key, "學制");
    MentionsTwo(key, "指定", "先修");
    MentionsTwo(key, "人數", "上限");
    assert t[1..][1..][1..][1..][1..][1..][1..][1..] == [];
  }

  /**
    A key falls into exactly one category: the category of the first keyword row it mentions,
    in the order department/college, grade, class, student ID, identity, system, prerequisite,
    limit; a key that mentions none is `Other`.
   */
  lemma ClassifyPrecedence(key: string)
    ensures Classify(key) == Other <==> forall i :: 0 <= i < |KeywordTable| ==> !MentionsAny(key, KeywordTable[i].0)
    ensures Classify(key) != Other ==>
      exists i :: 0 <= i < |KeywordTable| && KeywordTable[i].1 == Classify(key) && MentionsAny(key, KeywordTable[i].0)
        && forall j :: 0 <= j < i ==> !MentionsAny(key, KeywordTable[j].0)
  {
    ClassifyByTable(key);
    FirstMatchIsFirst(KeywordTable, key);
  }

  // ---------------------------------------------------------------- the value of a clause

  /** The mode of a clause: `限非` always excludes, a bare `非` excludes except for identity. */
  function ModeOf(category: Category, v: string): Mode {
    if Contains(v, "限非") || (Contains(v, "非") && category != Identity) then Exclude else Include
  }

  /**
    A value excludes exactly when it mentions `非` and either the category is not identity or
    the `非` comes as part of `限非`.
   */
  lemma ModeExcludes(category: Category, v: string)
    ensures ModeOf(category, v) == Exclude <==> '非' in v && (category != Identity || Contains(v, "限非"))
  {
    ContainsChar(v, '非');
    if Contains(v, "限非") { ContainsPart(v, "限非", 1); }
  }

  /** `re.sub(r'限非|非|限', '', v)`, alternatives tried in that order at each position. */
  function RemoveOperators(v: string): string
    decreases |v|
  {
    if v == [] then []
    else if StartsWith(v, "限非") then RemoveOperators(v[2..])
    else if v[0] == '非' || v[0] == '限' then RemoveOperators(v[1..])
    else [v[0]] + RemoveOperators(v[1..])
  }

  const Operators: set<char> := {'限', '非'}

  /** The three-way alternation removes exactly every `限` and every `非` character. */
  lemma {:induction false} RemoveOperatorsDropsBoth(v: string)
    ensures RemoveOperators(v) == Without(v, Operators)
    decreases |v|
  {
    if v != [] {
      if StartsWith(v, "限非") {
        RemoveOperatorsDropsBoth(v[2..]);
        assert v[0] == '限' && v[1] == '非';
        assert v[1..][1..] == v[2..];
      } else {
        RemoveOperatorsDropsBoth(v[1..]);
      }
    }
  }

  /** The list separators `、 , ， / 或`. */
  const ListSeps: set<char> := {'、', ',', '，', '/', '或'}

  /** Every piece stripped: the `x.strip()` of the comprehension. */
  function StripEach(pieces: seq<string>): (r: seq<string>)
    ensures |r| == |pieces| && forall i :: 0 <= i < |pieces| ==> r[i] == Strip(pieces[i])
  {
    seq(|pieces|, i requires 0 <= i < |pieces| => Strip(pieces[i]))
  }

  /** The non-empty strings of `xs`, in order: the `if x.strip()` of the comprehension. */
  function DropBlank(xs: seq<string>): seq<string>
    decreases |xs|
  {
    if xs == [] then []
    else
      var prev := DropBlank(xs[..|xs| - 1]);
      if xs[|xs| - 1] == [] then prev else prev + [xs[|xs| - 1]]
  }

  /** `[x.strip() for x in pieces if x.strip()]`. */
  function NonEmptyItems(pieces: seq<string>): seq<string>
    decreases |pieces|
  {
    if pieces == [] then []
    else
      var prev := NonEmptyItems(pieces[..|pieces| - 1]);
      var x := Strip(pieces[|pieces| - 1]);
      if x == [] then prev else prev + [x]
  }

  /** The comprehension is the stripping followed by the filter. */
  lemma {:induction false} NonEmptyItemsStages(pieces: seq<string>)
    ensures NonEmptyItems(pieces) == DropBlank(StripEach(pieces))
    decreases |pieces|
  {
    if pieces != [] {
      var init := pieces[..|pieces| - 1];
      NonEmptyItemsStages(init);
      assert StripEach(pieces)[..|pieces| - 1] == StripEach(init);
    }
  }

  /** The values of a clause: operators removed, split on the separators, trimmed, blanks dropped. */
  function ValueItems(v: string): seq<string> {
    NonEmptyItems(Split(RemoveOperators(v), ListSeps))
  }

  /** A value item as the parser emits it. */
  predicate CleanItem(x: string) {
    && x != [] && !IsSpace(x[0]) && !IsSpace(x[|x| - 1])
    && NoneIn(x, ListSeps) && NoneIn(x, Operators)
  }

  /** A non-empty string without whitespace at either end and without a character of `cs`. */
  predicate TrimmedWithout(x: string, cs: set<char>) {
    x != [] && !IsSpace(x[0]) && !IsSpace(x[|x| - 1]) && NoneIn(x, cs)
  }

  lemma StripKeepsNoneIn(s: string, cs: set<char>)
    requires NoneIn(s, cs)
    ensures NoneIn(Strip(s), cs)
  {
    var r := Strip(s);
    StripIsSlice(s);
    var i :| OccursAt(s, r, i) && AllSpace(s[..i]) && AllSpace(s[i + |r|..]);
    forall j | 0 <= j < |r| ensures r[j] !in cs { assert r[j] == s[i + j]; }
  }

  lemma {:induction false} SplitKeepsNoneIn(s: string, seps: set<char>, cs: set<char>)
    requires NoneIn(s, cs)
    ensures forall i :: 0 <= i < |Split(s, seps)| ==> NoneIn(Split(s, seps)[i], cs)
    decreases |s|
  {
    if s != [] {
      SplitKeepsNoneIn(s[1..], seps, cs);
      var rest := Split(s[1..], seps);
      if s[0] !in seps {
        var first := [s[0]] + rest[0];
        assert NoneIn(first, cs) by {
          forall j | 0 <= j < |first| ensures first[j] !in cs {
            if j > 0 { assert first[j] == rest[0][j - 1]; }
          }
        }
      }
    }
  }

  lemma NonEmptyItemsClean(pieces: seq<string>, cs: set<char>)
    requires forall i :: 0 <= i < |pieces| ==> NoneIn(pieces[i], cs)
    ensures forall i :: 0 <= i < |NonEmptyItems(pieces)| ==> TrimmedWithout(NonEmptyItems(pieces)[i], cs)
  {
    var items := NonEmptyItems(pieces);
    NonEmptyItemsStages(pieces);
    DropBlankPicks(StripEach(pieces));
    var idx: seq<nat> :| Picks(StripEach(pieces), items, idx);
    forall n | 0 <= n < |items| ensures TrimmedWithout(items[n], cs) {
      StripKeepsNoneIn(pieces[idx[n]], cs);
    }
  }

  /**
    Every value item is non-empty, has no whitespace at either end, and holds neither a list
    separator nor an operator character.
   */
  lemma ValueItemsClean(v: string)
    ensures forall i :: 0 <= i < |ValueItems(v)| ==> CleanItem(ValueItems(v)[i])
  {
    var cleaned := RemoveOperators(v);
    RemoveOperatorsDropsBoth(v);
    var pieces := Split(cleaned, ListSeps);
    SplitKeepsNoneIn(cleaned, ListSeps, Operators);
    NonEmptyItemsClean(pieces, ListSeps);
    NonEmptyItemsClean(pieces, Operators);
    var items := ValueItems(v);
    forall i | 0 <= i < |items| ensures CleanItem(items[i]) {
      assert TrimmedWithout(items[i], ListSeps) && TrimmedWithout(items[i], Operators);
    }
  }

  /**
    `items` are the strings of `xs` at the ascending indices `idx`, and a string of `xs` is
    picked exactly when it is not empty.
   */
  ghost predicate Picks(xs: seq<string>, items: seq<string>, idx: seq<nat>) {
    && |idx| == |items|
    && (forall n :: 0 <= n < |idx| ==> idx[n] < |xs| && items[n] == xs[idx[n]])
    && (forall n, l :: 0 <= n < l < |idx| ==> idx[n] < idx[l])
    && (forall i :: 0 <= i < |xs| ==> (xs[i] != [] <==> i in idx))
  }

  /** `DropBlank` keeps the non-empty strings, in order. */
  lemma {:induction false} DropBlankPicks(xs: seq<string>)
    ensures exists idx :: Picks(xs, DropBlank(xs), idx)
    decreases |xs|
  {
    if xs == [] {
      var none: seq<nat> := [];
      assert DropBlank(xs) == [];
      assert Picks(xs, DropBlank(xs), none);
    } else {
      var init := xs[..|xs| - 1];
      DropBlankPicks(init);
      var idx: seq<nat> :| Picks(init, DropBlank(init), idx);
      if xs[|xs| - 1] == [] {
        PicksSkip(xs, DropBlank(init), idx);
        assert Picks(xs, DropBlank(xs), idx);
      } else {
        PicksKeep(xs, DropBlank(init), idx);
        assert Picks(xs, DropBlank(xs), idx + [|xs| - 1]);
      }
    }
  }

  /** An empty string at the end is not picked. */
  lemma PicksSkip(xs: seq<string>, items: seq<string>, idx: seq<nat>)
    requires xs != [] && xs[|xs| - 1] == [] && Picks(xs[..|xs| - 1], items, idx)
    ensures Picks(xs, items, idx)
  {
    var init := xs[..|xs| - 1];
    forall n | 0 <= n < |idx| ensures idx[n] < |xs| && items[n] == xs[idx[n]] {
      assert init[idx[n]] == xs[idx[n]];
    }
    forall i | 0 <= i < |xs| ensures xs[i] != [] <==> i in idx {
      if i < |init| { assert init[i] == xs[i]; }
    }
  }

  /** A non-empty string at the end is picked, after the others. */
  lemma PicksKeep(xs: seq<string>, items: seq<string>, idx: seq<nat>)
    requires xs != [] && xs[|xs| - 1] != [] && Picks(xs[..|xs| - 1], items, idx)
    ensures Picks(xs, items + [xs[|xs| - 1]], idx + [|xs| - 1])
  {
    var init := xs[..|xs| - 1];
    var items2, idx2 := items + [xs[|xs| - 1]], idx + [|xs| - 1];
    forall n | 0 <= n < |idx2| ensures idx2[n] < |xs| && items2[n] == xs[idx2[n]] {
      if n < |idx| { assert init[idx[n]] == xs[idx[n]]; }
    }
    forall n, l | 0 <= n < l < |idx2| ensures idx2[n] < idx2[l] {
      assert idx2[n] == idx[n];
    }
    forall i | 0 <= i < |xs| ensures xs[i] != [] <==> i in idx2 {
      if i < |init| { assert init[i] == xs[i]; }
    }
  }

  /**
    The values of a clause are the pieces between list separators of the value with its operator
    characters removed, stripped, the blank ones dropped, in their order.
   */
  lemma ValueItemsSpec(v: string)
    ensures exists idx :: Picks(StripEach(Split(Without(v, Operators), ListSeps)), ValueItems(v), idx)
  {
    RemoveOperatorsDropsBoth(v);
    var xs := StripEach(Split(RemoveOperators(v), ListSeps));
    NonEmptyItemsStages(Split(RemoveOperators(v), ListSeps));
    DropBlankPicks(xs);
    var idx: seq<nat> :| Picks(xs, DropBlank(xs), idx);
    assert Picks(StripEach(Split(Without(v, Operators), ListSeps)), ValueItems(v), idx);
  }

  /** The grade dictionary: the ordinal year words become their digit, other items stay. */
  function GradeNumber(x: string): string {
    if x == "一年級" then "1"
    else if x == "二年級" then "2"
    else if x == "三年級" then "3"
    else if x == "四年級" then "4"
    else x
  }

  /** Student-ID parity: odd when the value mentions `單`, else even when it mentions `雙`, else all. */
  function ParityOf(v: string): ParityKind {
    if Contains(v, "單") then Odd else if Contains(v, "雙") then Even else All
  }

  /** The dictionary entry a clause of `category` with raw value `v` stores. */
  function ClauseValue(category: Category, v: string): RuleValue {
    if category == Parity then ParityRule(Include, ParityOf(v))
    else
      var items := ValueItems(v);
      ListRule(ModeOf(category, v),
        if category == Grade then seq(|items|, i requires 0 <= i < |items| => GradeNumber(items[i])) else items)
  }

  // ---------------------------------------------------------------- one clause

  /**
    `cond.split(sep, 1)` with the half-width colon as separator when present, else the
    full-width one; both halves stripped. No colon at all: the clause is dropped.
   */
  function SplitClause(cond: string): (r: Option<(string, string)>)
    ensures r.None? <==> ':' !in cond && '：' !in cond
    ensures r.Some? ==>
      var sep := if ':' in cond then ':' else '：';
      exists i :: 0 <= i < |cond| && cond[i] == sep && sep !in cond[..i]
        && r.value == (Strip(cond[..i]), Strip(cond[i + 1..]))
  {
    if ':' !in cond && '：' !in cond then None
    else
      var sep := if ':' in cond then ':' else '：';
      var i := IndexOf(cond, sep);
      var r := (Strip(cond[..i]), Strip(cond[i + 1..]));
      assert 0 <= i < |cond| && cond[i] == sep && sep !in cond[..i] && r == (Strip(cond[..i]), Strip(cond[i + 1..]));
      Some(r)
  }

  /** One clause as a dictionary entry, or nothing when it has no colon. */
  function ParseClause(cond: string): Option<Rule> {
    match SplitClause(cond)
    case None => None
    case Some((key, v)) => Some(Rule(Classify(key), ClauseValue(Classify(key), v)))
  }

  /** A clause is dropped exactly when it has no colon of either width. */
  lemma ParseClauseDrops(cond: string)
    ensures ParseClause(cond).None? <==> ':' !in cond && '：' !in cond
  {
  }

  /**
    What a clause of `category` with raw value `v` stores: for parity the parity of the value
    with mode include; otherwise the mode and the clean value items, grade words as digits.
   */
  lemma ClauseValueSpec(category: Category, v: string)
    ensures category == Parity ==> ClauseValue(category, v) == ParityRule(Include, ParityOf(v))
    ensures category != Parity ==>
      var r := ClauseValue(category, v);
      var items := ValueItems(v);
      && r.ListRule?
      && (r.mode == Exclude <==> '非' in v && (category != Identity || Contains(v, "限非")))
      && |r.values| == |items|
      && forall i :: 0 <= i < |items| ==>
           r.values[i] == (if category == Grade then GradeNumber(items[i]) else items[i]) && CleanItem(items[i])
  {
    if category != Parity {
      ModeExcludes(category, v);
      ValueItemsClean(v);
    }
  }

  /** A student-ID clause whose value mentions `單` is `{include, odd}`, whatever else it says. */
  lemma OddParityWins(cond: string)
    requires SplitClause(cond).Some?
    requires Classify(SplitClause(cond).value.0) == Parity && Contains(SplitClause(cond).value.1, "單")
    ensures ParseClause(cond) == Some(Rule(Parity, ParityRule(Include, Odd)))
  {
  }

  // ---------------------------------------------------------------- the rules dictionary of a group

  /** The categories of a rules dictionary, in its order. */
  function Categories(rules: seq<Rule>): (cs: seq<Category>)
    ensures |cs| == |rules| && forall i :: 0 <= i < |rules| ==> cs[i] == rules[i].category
  {
    seq(|rules|, i requires 0 <= i < |rules| => rules[i].category)
  }

  /** `r_obj.get(c)`. */
  function Lookup(rules: seq<Rule>, c: Category): Option<RuleValue>
    decreases |rules|
  {
    if rules == [] then None
    else if rules[0].category == c then Some(rules[0].value)
    else Lookup(rules[1..], c)
  }

  /** `r_obj[fk] = value`: an existing entry is overwritten in place, a new one is appended. */
  function Assign(rules: seq<Rule>, r: Rule): seq<Rule>
    decreases |rules|
  {
    if rules == [] then [r]
    else if rules[0].category == r.category then [r] + rules[1..]
    else [rules[0]] + Assign(rules[1..], r)
  }

  /** Assignment keeps the key order (appending only a new key) and changes one entry. */
  lemma {:induction false} AssignUpdates(rules: seq<Rule>, r: Rule)
    requires Distinct(Categories(rules))
    ensures Categories(Assign(rules, r)) ==
      if r.category in Categories(rules) then Categories(rules) else Categories(rules) + [r.category]
    ensures Lookup(Assign(rules, r), r.category) == Some(r.value)
    ensures forall c :: c != r.category ==> Lookup(Assign(rules, r), c) == Lookup(rules, c)
    decreases |rules|
  {
    if rules != [] {
      assert Categories(rules) == [rules[0].category] + Categories(rules[1..]);
      if rules[0].category == r.category {
        assert Categories(Assign(rules, r)) == [r.category] + Categories(rules[1..]);
        forall c | c != r.category ensures Lookup(Assign(rules, r), c) == Lookup(rules, c) {
          LookupTail(rules, c);
        }
      } else {
        AssignUpdates(rules[1..], r);
        assert Categories(Assign(rules, r)) == [rules[0].category] + Categories(Assign(rules[1..], r));
      }
    }
  }

  lemma LookupTail(rules: seq<Rule>, c: Category)
    requires rules != [] && rules[0].category != c
    ensures Lookup(rules, c) == Lookup(rules[1..], c)
  {
  }

  /** The dictionary after the clauses in order, one assignment per well-formed clause. */
  function Fill(clauses: seq<string>): seq<Rule>
    decreases |clauses|
  {
    if clauses == [] then []
    else
      var prev := Fill(clauses[..|clauses| - 1]);
      match ParseClause(clauses[|clauses| - 1])
      case None => prev
      case Some(r) => Assign(prev, r)
  }

  /** The categories of the well-formed clauses, in clause order and with repeats. */
  function ClauseCategories(clauses: seq<string>): seq<Category>
    decreases |clauses|
  {
    if clauses == [] then []
    else
      var prev := ClauseCategories(clauses[..|clauses| - 1]);
      match ParseClause(clauses[|clauses| - 1])
      case None => prev
      case Some(r) => prev + [r.category]
  }

  /** The value stored by the last well-formed clause of category `c`, if any. */
  function LastValueFor(clauses: seq<string>, c: Category): Option<RuleValue>
    decreases |clauses|
  {
    if clauses == [] then None
    else match ParseClause(clauses[|clauses| - 1])
      case Some(r) =>
        if r.category == c then Some(r.value) else LastValueFor(clauses[..|clauses| - 1], c)
      case None => LastValueFor(clauses[..|clauses| - 1], c)
  }

  /**
    A group's dictionary has one entry per category that some clause names, in the order the
    categories first appear, and each entry is the value of the last clause of its category.
   */
  lemma {:induction false} FillSemantics(clauses: seq<string>)
    ensures Categories(Fill(clauses)) == FirstOccurrences(ClauseCategories(clauses))
    ensures Distinct(Categories(Fill(clauses)))
    ensures forall c :: Lookup(Fill(clauses), c) == LastValueFor(clauses, c)
    decreases |clauses|
  {
    if clauses != [] {
      var init := clauses[..|clauses| - 1];
      FillSemantics(init);
      match ParseClause(clauses[|clauses| - 1])
      case None =>
      case Some(r) =>
        AssignUpdates(Fill(init), r);
        var cc := ClauseCategories(init);
        assert r.category in Categories(Fill(init)) <==> r.category in FirstOccurrences(cc);
        assert r.category in FirstOccurrences(cc) <==> r.category in cc by {
          if r.category in cc {
            var k :| 0 <= k < |cc| && cc[k] == r.category;
          }
        }
        assert (cc + [r.category])[..|cc + [r.category]| - 1] == cc;
    }
  }

  // ---------------------------------------------------------------- splitting

  /** The clause terminators `。 ； ;`. */
  const Terminators: set<char> := {'。', '；', ';'}

  /** `re.split(r'[。；;]\s*', content)`: the whitespace after each terminator is eaten. */
  function ClauseSplit(content: string): seq<string> {
    var pieces := Split(content, Terminators);
    seq(|pieces|, i requires 0 <= i < |pieces| => if i == 0 then pieces[i] else TrimStart(pieces[i]))
  }

  /** The group dictionary of a group's content. */
  function GroupRules(content: string): seq<Rule> {
    Fill(ClauseSplit(content))
  }

  /** The group delimiters, half-width and full-width vertical bar. */
  const Bars: set<char> := {'|', '｜'}

  /** `re.split(r'\s*[|｜]\s*', t)`: the whitespace on both sides of each bar is eaten. */
  function BarSplit(t: string): seq<string> {
    var pieces := Split(t, Bars);
    seq(|pieces|, i requires 0 <= i < |pieces| =>
      var p := if i == |pieces| - 1 then pieces[i] else TrimEnd(pieces[i]);
      if i == 0 then p else TrimStart(p))
  }

  /**
    `ClauseSplit` cuts at every terminator and at nothing else: one clause per terminator plus
    one, none holding a terminator, each clause after the first with its leading whitespace gone
    and otherwise the text between two terminators, which together with the terminators is the
    whole content.
   */
  lemma ClauseSplitSpec(content: string)
    ensures |ClauseSplit(content)| == 1 + CountIn(content, Terminators)
    ensures forall i :: 0 <= i < |ClauseSplit(content)| ==>
      Trimmed(Split(content, Terminators)[i], ClauseSplit(content)[i], i > 0, false)
    ensures forall i :: 0 <= i < |ClauseSplit(content)| ==> NoneIn(ClauseSplit(content)[i], Terminators)
    ensures Weave(Split(content, Terminators), Only(content, Terminators)) == content
  {
    var raw := Split(content, Terminators);
    var clauses := ClauseSplit(content);
    forall i | 0 <= i < |clauses|
      ensures Trimmed(raw[i], clauses[i], i > 0, false) && NoneIn(clauses[i], Terminators)
    {
      TrimsTrimmed(raw[i], i > 0, false);
      TrimmedKeepsNoneIn(raw[i], clauses[i], i > 0, false, Terminators);
    }
    SplitWeave(content, Terminators);
  }

  /**
    `BarSplit` cuts at every bar and at nothing else: one group per bar plus one, none holding a
    bar, each the text between two bars with the whitespace next to the bars gone (the text
    before the first bar keeps its start, the one after the last its end); with the bars put
    back, the untrimmed pieces are the whole text.
   */
  lemma BarSplitSpec(t: string)
    ensures |BarSplit(t)| == 1 + CountIn(t, Bars)
    ensures forall i :: 0 <= i < |BarSplit(t)| ==>
      Trimmed(Split(t, Bars)[i], BarSplit(t)[i], i > 0, i < |BarSplit(t)| - 1)
    ensures forall i :: 0 <= i < |BarSplit(t)| ==> NoneIn(BarSplit(t)[i], Bars)
    ensures Weave(Split(t, Bars), Only(t, Bars)) == t
  {
    var raw := Split(t, Bars);
    var groups := BarSplit(t);
    forall i | 0 <= i < |groups|
      ensures Trimmed(raw[i], groups[i], i > 0, i < |groups| - 1) && NoneIn(groups[i], Bars)
    {
      TrimsTrimmed(raw[i], i > 0, i < |groups| - 1);
      TrimmedKeepsNoneIn(raw[i], groups[i], i > 0, i < |groups| - 1, Bars);
    }
    SplitWeave(t, Bars);
  }

  // ---------------------------------------------------------------- the priority prefix

  predicate IsDigit(c: char) { '0' <= c <= '9' }
  predicate IsOpenBracket(c: char) { c == '(' || c == '[' || c == '{' }
  predicate IsCloseBracket(c: char) { c == ')' || c == ']' || c == '}' }
  predicate IsPrioritySep(c: char) { c == ':' || c == '：' || c == '.' }
  predicate NotNewline(c: char) { c != '\n' }

  predicate AllDigits(ds: string) {
    forall i :: 0 <= i < |ds| ==> IsDigit(ds[i])
  }

  /** `int(ds)` for a run of ASCII digits. */
  function DigitsValue(ds: string): nat
    requires AllDigits(ds)
    decreases |ds|
  {
    if ds == [] then 0 else DigitsValue(ds[..|ds| - 1]) * 10 + (ds[|ds| - 1] as int - '0' as int)
  }

  /** The decimal numeral of `n`, without leading zeros. */
  function Decimal(n: nat): (ds: string)
    ensures AllDigits(ds) && ds != []
    decreases n
  {
    if n < 10 then [(('0' as int) + n) as char]
    else Decimal(n / 10) + [(('0' as int) + n % 10) as char]
  }

  /** Reading back the numeral of `n` gives `n`. */
  lemma {:induction false} DecimalValue(n: nat)
    ensures DigitsValue(Decimal(n)) == n
    decreases n
  {
    if n >= 10 {
      DecimalValue(n / 10);
      var ds := Decimal(n);
      assert ds[..|ds| - 1] == Decimal(n / 10);
    }
  }

  /** One optional character: `[...]?`. */
  function SkipOne(s: string, p: char -> bool): string {
    if s != [] && p(s[0]) then s[1..] else s
  }

  /**
    What `[\)\]\}]?\s*[:：.]?\s*(.*)` captures from the text `t` that follows the number. Every
    part before the group is optional and greedy, and `(.*)` matches whatever is left, so the
    greedy choice is the one that matches.
   */
  function PriorityContent(t: string): string {
    var body := TrimStart(SkipOne(TrimStart(SkipOne(t, IsCloseBracket)), IsPrioritySep));
    body[..RunLength(body, NotNewline)]
  }

  /**
    `re.match(r'^[\(\[\{]?(\d+)[\)\]\}]?\s*[:：.]?\s*(.*)', g)`: the priority and the content
    when `g` starts with digits, possibly after one opening bracket; the content ends at the
    first newline, which `.` does not match.
   */
  function PriorityPrefix(g: string): Option<(nat, string)> {
    var start := if |g| >= 2 && IsOpenBracket(g[0]) && IsDigit(g[1]) then 1 else 0;
    var n := RunLength(g[start..], IsDigit);
    if n == 0 then None
    else
      var digits := g[start..start + n];
      assert AllDigits(digits) by {
        forall i | 0 <= i < |digits| ensures IsDigit(digits[i]) {
          assert digits[i] == g[start..][i];
        }
      }
      Some((DigitsValue(digits), PriorityContent(g[start + n..])))
  }

  /** The pattern matches exactly when `g` starts with a digit, or with an opening bracket and a digit. */
  lemma PriorityPrefixMatches(g: string)
    ensures PriorityPrefix(g).Some? <==>
      (g != [] && IsDigit(g[0])) || (|g| >= 2 && IsOpenBracket(g[0]) && IsDigit(g[1]))
  {
    if |g| >= 2 && IsOpenBracket(g[0]) && IsDigit(g[1]) { assert g[1..][0] == g[1]; }
  }

  /**
    Whatever follows: a group made of an optional opening bracket, a maximal run of digits `ds`
    and a rest `t` has priority `int(ds)` (leading zeros and all) and the content of `t`.
   */
  lemma LeadingIntegerPrefix(open: string, ds: string, t: string)
    requires open == [] || (|open| == 1 && IsOpenBracket(open[0]))
    requires ds != [] && AllDigits(ds) && (t == [] || !IsDigit(t[0]))
    ensures PriorityPrefix(open + ds + t) == Some((DigitsValue(ds), PriorityContent(t)))
  {
    if open == [] {
      assert open + ds + t == ds + t;
      NumberFirst(ds, t);
      DigitsOfPrefix(ds, t);
      ContentOfRest(ds, t);
    } else {
      assert open + ds + t == [open[0]] + ds + t;
      NumberAfterBracket(open[0], ds, t);
      ContentOfRest([open[0]] + ds, t);
    }
  }

  /** A group that starts with its digits. */
  lemma NumberFirst(ds: string, t: string)
    requires ds != [] && AllDigits(ds) && (t == [] || !IsDigit(t[0]))
    ensures PriorityPrefix(ds + t).Some? && AllDigits((ds + t)[0..|ds|])
    ensures PriorityPrefix(ds + t).value.0 == DigitsValue((ds + t)[0..|ds|])
    ensures PriorityPrefix(ds + t).value.1 == PriorityContent((ds + t)[|ds|..])
  {
    var g := ds + t;
    RunLengthOfPrefix(ds, t, IsDigit);
    assert g[0..] == g;
  }

  lemma DigitsOfPrefix(ds: string, t: string)
    requires AllDigits(ds)
    ensures AllDigits((ds + t)[0..|ds|]) && DigitsValue((ds + t)[0..|ds|]) == DigitsValue(ds)
  {
    assert (ds + t)[0..|ds|] == ds;
  }

  lemma ContentOfRest(a: string, t: string)
    ensures PriorityContent((a + t)[|a|..]) == PriorityContent(t)
  {
    assert (a + t)[|a|..] == t;
  }

  /**
    `t`, the text after the number, made of: at most one closing bracket (taken whenever `t` starts
    with one), whitespace up to `j`, at most one separator (taken whenever there is one at `j`),
    whitespace up to `k`, and then `c`, which runs to the first newline or to the end.
   */
  predicate ContentShape(t: string, i: nat, j: nat, m: nat, k: nat, c: string) {
    && i <= 1 && i <= j <= m <= j + 1 && m <= k <= |t| && k + |c| <= |t|
    && (i == 1 <==> t != [] && IsCloseBracket(t[0]))
    && AllSpace(t[i..j]) && (j < |t| ==> !IsSpace(t[j]))
    && (m == j + 1 <==> j < |t| && IsPrioritySep(t[j]))
    && AllSpace(t[m..k]) && (k < |t| ==> !IsSpace(t[k]))
    && t[k..k + |c|] == c && NoneIn(c, {'\n'})
    && (k + |c| < |t| ==> t[k + |c|] == '\n')
  }

  /** The content is what `ContentShape` says the capture group `(.*)` takes. */
  lemma PriorityContentShape(t: string)
    ensures exists i, j, m, k :: ContentShape(t, i, j, m, k, PriorityContent(t))
  {
    var i := SkipFirst(t, IsCloseBracket);
    var j := TrimAt(t, i);
    var m := SkipAt(t, j, IsPrioritySep);
    var k := TrimAt(t, m);
    var c := CutAt(t, k);
    assert TrimStart(SkipOne(TrimStart(SkipOne(t, IsCloseBracket)), IsPrioritySep)) == t[k..];
    assert c == PriorityContent(t);
    assert ContentShape(t, i, j, m, k, c);
  }

  /** `SkipOne` on all of `t` leaves the suffix from `i`. */
  lemma SkipFirst(t: string, p: char -> bool) returns (i: nat)
    ensures i <= 1 && i <= |t| && SkipOne(t, p) == t[i..]
    ensures i == 1 <==> t != [] && p(t[0])
  {
    i := if t != [] && p(t[0]) then 1 else 0;
  }

  /** `SkipOne` on the suffix of `t` from `i` leaves the suffix from `i` or `i + 1`. */
  lemma SkipAt(t: string, i: nat, p: char -> bool) returns (m: nat)
    requires i <= |t|
    ensures i <= m <= i + 1 && m <= |t| && SkipOne(t[i..], p) == t[m..]
    ensures m == i + 1 <==> i < |t| && p(t[i])
  {
    m := if i < |t| && p(t[i]) then i + 1 else i;
    if i < |t| { assert t[i..][0] == t[i]; }
  }

  /** `lstrip` on the suffix of `t` from `i` leaves the suffix after the whitespace run there. */
  lemma TrimAt(t: string, i: nat) returns (j: nat)
    requires i <= |t|
    ensures i <= j <= |t| && TrimStart(t[i..]) == t[j..]
    ensures AllSpace(t[i..j]) && (j < |t| ==> !IsSpace(t[j]))
  {
    var r := TrimStart(t[i..]);
    j := |t| - |r|;
    assert AllSpace(t[i..j]) by {
      forall x | 0 <= x < j - i ensures IsSpace(t[i..j][x]) { assert t[i..j][x] == t[i..][x]; }
    }
    if j < |t| { assert t[j] == r[0]; }
  }

  /** `(.*)` on the suffix of `t` from `k` takes everything up to the first newline. */
  lemma CutAt(t: string, k: nat) returns (c: string)
    requires k <= |t|
    ensures c == t[k..][..RunLength(t[k..], NotNewline)]
    ensures k + |c| <= |t| && t[k..k + |c|] == c && NoneIn(c, {'\n'})
    ensures k + |c| < |t| ==> t[k + |c|] == '\n'
  {
    c := t[k..][..RunLength(t[k..], NotNewline)];
    if k + |c| < |t| { assert t[k + |c|] == t[k..][|c|]; }
  }

  /** One group: the priority from its prefix (default 1) and the dictionary of its clauses. */
  function ParseGroup(g: string): RuleGroup {
    match PriorityPrefix(g)
    case Some((p, content)) => RuleGroup(p, GroupRules(content))
    case None => RuleGroup(1, GroupRules(g))
  }

  /** A group that does not start with a digit (after at most one bracket) has priority 1. */
  lemma DefaultPriority(g: string)
    requires g == [] || (!IsDigit(g[0]) && !(|g| >= 2 && IsOpenBracket(g[0]) && IsDigit(g[1])))
    ensures ParseGroup(g) == RuleGroup(1, GroupRules(g))
  {
  }

  /** A body that neither the bracket, separator or whitespace skips nor `.*` would cut. */
  predicate PlainBody(body: string) {
    && body != [] && !IsSpace(body[0]) && !IsPrioritySep(body[0]) && !IsDigit(body[0]) && !IsCloseBracket(body[0])
    && forall i :: 0 <= i < |body| ==> NotNewline(body[i])
  }

  /**
    A group written as an opening bracket, the numeral of `n`, optionally a closing bracket,
    and a plain body has priority `n` and the rules of that body.
   */
  lemma ExplicitPriority(n: nat, open: char, close: string, body: string)
    requires IsOpenBracket(open)
    requires close == [] || (|close| == 1 && IsCloseBracket(close[0]))
    requires PlainBody(body)
    ensures ParseGroup([open] + Decimal(n) + close + body) == RuleGroup(n, GroupRules(body))
  {
    var ds := Decimal(n);
    assert [open] + ds + close + body == [open] + ds + (close + body);
    LeadingIntegerPrefix([open], ds, close + body);
    BodyAfterNumber(close, body);
    DecimalValue(n);
  }

  /** A group that starts with an opening bracket and then its digits. */
  lemma NumberAfterBracket(open: char, ds: string, tail: string)
    requires IsOpenBracket(open) && ds != [] && AllDigits(ds)
    requires tail == [] || !IsDigit(tail[0])
    ensures var g := [open] + ds + tail;
      PriorityPrefix(g).Some? && PriorityPrefix(g).value.0 == DigitsValue(ds)
      && PriorityPrefix(g).value.1 == PriorityContent(g[|[open] + ds|..])
  {
    var g := [open] + ds + tail;
    assert g[1..] == ds + tail;
    assert g[1..1 + |ds|] == ds;
    RunLengthOfPrefix(ds, tail, IsDigit);
  }

  lemma BodyAfterNumber(close: string, body: string)
    requires close == [] || (|close| == 1 && IsCloseBracket(close[0]))
    requires PlainBody(body)
    ensures PriorityContent(close + body) == body
  {
    CloserSkipped(close, body);
    assert RunLength(body, IsSpace) == 0;
    assert TrimStart(body) == body;
    assert SkipOne(body, IsPrioritySep) == body;
    RunLengthAll(body, NotNewline);
    assert body[..|body|] == body;
  }

  lemma CloserSkipped(close: string, body: string)
    requires close == [] || (|close| == 1 && IsCloseBracket(close[0]))
    requires body == [] || !IsCloseBracket(body[0])
    ensures SkipOne(close + body, IsCloseBracket) == body
  {
    if close != [] { assert (close + body)[1..] == body; } else { assert close + body == body; }
  }

  // ---------------------------------------------------------------- the whole parser

  /** What the comprehension keeps of one group: the stripped group, unless it is blank. */
  function Kept(g: string): seq<string> {
    if Strip(g) == [] then [] else [Strip(g)]
  }

  /** `[g.strip() for g in groups if g.strip()]`. */
  function NonBlank(gs: seq<string>): seq<string>
    decreases |gs|
  {
    if gs == [] then [] else Kept(gs[0]) + NonBlank(gs[1..])
  }

  /** Filtering the blank groups distributes over concatenation: source order is kept. */
  lemma {:induction false} NonBlankAppend(a: seq<string>, b: seq<string>)
    ensures NonBlank(a + b) == NonBlank(a) + NonBlank(b)
    decreases |a|
  {
    if a == [] {
      assert a + b == b;
    } else {
      assert (a + b)[0] == a[0] && (a + b)[1..] == a[1..] + b;
      NonBlankAppend(a[1..], b);
    }
  }

  /** A single group is kept, stripped, exactly when it is not blank. */
  lemma NonBlankOne(g: string)
    ensures NonBlank([g]) == if Strip(g) == [] then [] else [Strip(g)]
  {
    assert [g][1..] == [];
  }

  /** One more group adds what is kept of it. */
  lemma NonBlankSnoc(gs: seq<string>, g: string)
    ensures NonBlank(gs + [g]) == NonBlank(gs) + Kept(g)
  {
    NonBlankAppend(gs, [g]);
    NonBlankOne(g);
  }

  /** `無`, `None` or blank text means no criteria. */
  predicate IsSentinel(text: string) {
    var t := Strip(text);
    t == "" || t == "無" || t == "None"
  }

  /** The groups of a criteria text, one per non-blank bar-separated segment, in source order. */
  function CriteriaGroups(text: string): seq<RuleGroup> {
    if text == [] || IsSentinel(text) then []
    else
      GroupsOf(NonBlank(BarSplit(Strip(text))))
  }

  /** One parsed group per text. */
  function GroupsOf(gs: seq<string>): (groups: seq<RuleGroup>)
    ensures |groups| == |gs| && forall i :: 0 <= i < |gs| ==> groups[i] == ParseGroup(gs[i])
  {
    seq(|gs|, i requires 0 <= i < |gs| => ParseGroup(gs[i]))
  }

  /** The loop over the clauses of one group, filling the rules dictionary clause by clause. */
  method ParseRules(content: string) returns (rules: seq<Rule>)
    ensures rules == GroupRules(content)
  {
    var clauses := ClauseSplit(content);
    rules := [];
    for i := 0 to |clauses|
      invariant rules == Fill(clauses[..i])
    {
      assert clauses[..i + 1][..i] == clauses[..i];
      match ParseClause(clauses[i]) {
        case None =>
        case Some(r) => rules := Assign(rules, r);
      }
    }
    assert clauses[..|clauses|] == clauses;
  }

  lemma NonBlankStep(pieces: seq<string>, i: nat)
    requires i < |pieces|
    ensures NonBlank(pieces[..i + 1]) ==
      NonBlank(pieces[..i]) + if Strip(pieces[i]) == [] then [] else [Strip(pieces[i])]
  {
    assert pieces[..i + 1] == pieces[..i] + [pieces[i]];
    NonBlankSnoc(pieces[..i], pieces[i]);
  }

  lemma GroupsOfAppend(gs: seq<string>, g: string)
    ensures GroupsOf(gs + [g]) == GroupsOf(gs) + [ParseGroup(g)]
  {
  }

  /** One group: the priority prefix read off, then its clauses parsed. */
  method ParseGroupText(g: string) returns (group: RuleGroup)
    ensures group == ParseGroup(g)
  {
    var priority, content := 1, g;
    match PriorityPrefix(g) {
      case Some((p, c)) => priority, content := p, c;
      case None =>
    }
    var rules := ParseRules(content);
    group := RuleGroup(priority, rules);
  }

  /** `parse_criteria_text`, with the loop over the groups appending one group each. */
  method ParseCriteriaText(text: string) returns (groups: seq<RuleGroup>)
    ensures groups == CriteriaGroups(text)
  {
    if text == [] || IsSentinel(text) {
      return [];
    }
    groups := ParsePieces(BarSplit(Strip(text)));
  }

  /** The loop of `parse_criteria_text` over the bar-separated segments. */
  method ParsePieces(pieces: seq<string>) returns (groups: seq<RuleGroup>)
    ensures groups == GroupsOf(NonBlank(pieces))
  {
    groups := [];
    for i := 0 to |pieces|
      invariant groups == GroupsOf(NonBlank(pieces[..i]))
    {
      GroupsStep(pieces, i);
      var g := Strip(pieces[i]);
      if g != [] {
        var group := ParseGroupText(g);
        groups := groups + [group];
      }
    }
    assert pieces[..|pieces|] == pieces;
  }

  /** One more segment adds its parsed group, unless it is blank. */
  lemma GroupsStep(pieces: seq<string>, i: nat)
    requires i < |pieces|
    ensures GroupsOf(NonBlank(pieces[..i + 1])) ==
      GroupsOf(NonBlank(pieces[..i])) + if Strip(pieces[i]) == [] then [] else [ParseGroup(Strip(pieces[i]))]
  {
    NonBlankStep(pieces, i);
    var g := Strip(pieces[i]);
    if g != [] {
      GroupsOfAppend(NonBlank(pieces[..i]), g);
    } else {
      assert NonBlank(pieces[..i]) + [] == NonBlank(pieces[..i]);
    }
  }

  /**
    Criteria text gives one group per non-blank segment, in the order of the text: the groups
    are not reordered by priority.
   */
  lemma GroupsInSourceOrder(text: string, a: seq<string>, g: string, b: seq<string>)
    requires !(text == [] || IsSentinel(text))
    requires BarSplit(Strip(text)) == a + [g] + b && Strip(g) != []
    ensures var groups := CriteriaGroups(text);
      var n := |NonBlank(a)|;
      n < |groups| && groups[n] == ParseGroup(Strip(g))
  {
    NonBlankAppend(a + [g], b);
    NonBlankAppend(a, [g]);
    NonBlankOne(g);
  }
}
