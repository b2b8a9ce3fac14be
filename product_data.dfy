/**
 * The search-statement construction of the product data layer: from a report
 * filter, the SQL text and the positional arguments sent to the database.
 * Running the statement and scanning its rows are not modelled.
 */
module ProductData {
  import opened GoStrings
  import opened ProductModel

  /**
   * The fixed head of the statement, character for character as the Go raw string
   * writes it (each line ends in a space, continuation lines start with two tabs).
   */
  const SearchPrefix: string :=
    "SELECT \n" +
    "\t\tproductId, \n" +
    "\t\tLOWER(manufacturer), \n" +
    "\t\tLOWER(sku), \n" +
    "\t\tupc, \n" +
    "\t\tpricePerUnit, \n" +
    "\t\tquantityOnHand, \n" +
    "\t\tLOWER(productName) \n" +
    "\t\tFROM products WHERE "
  const NameClause: string := "productName LIKE ? "
  const ManufacturerClause: string := "manufacturer LIKE ? "
  const SkuClause: string := "sku LIKE ? "
  const Separator: string := " AND "

  /** The number of `?` placeholders in a statement text. */
  function Placeholders(s: string): nat
  {
    CountChar(s, '?')
  }

  /** One substring filter: the clause it contributes and the text it filters by. */
  datatype Condition = Condition(clause: string, value: string)

  /** The filters in the fixed order name, manufacturer, SKU. */
  function Conditions(f: ReportFilter): seq<Condition>
  {
    [Condition(NameClause, f.nameFilter),
     Condition(ManufacturerClause, f.manufacturerFilter),
     Condition(SkuClause, f.skuFilter)]
  }

  /** The filters that are set (non-empty), in their original order. */
  function Active(cs: seq<Condition>): (r: seq<Condition>)
    ensures |r| <= |cs|
  {
    if cs == [] then [] else (if cs[0].value != "" then [cs[0]] else []) + Active(cs[1..])
  }

  /** `Active` keeps exactly the conditions whose filter text is non-empty. */
  lemma {:induction false} ActiveMembers(cs: seq<Condition>)
    ensures forall c :: c in Active(cs) <==> c in cs && c.value != ""
  {
    if cs != [] {
      ActiveMembers(cs[1..]);
      assert cs == [cs[0]] + cs[1..];
    }
  }

  function ClauseTexts(cs: seq<Condition>): (r: seq<string>)
    ensures |r| == |cs|
  {
    if cs == [] then [] else [cs[0].clause] + ClauseTexts(cs[1..])
  }

  /** The argument bound to a filter's placeholder: the lower-cased filter between `%` wildcards. */
  function Pattern(value: string): string
  {
    "%" + ToLower(value) + "%"
  }

  function Patterns(cs: seq<Condition>): (r: seq<string>)
    ensures |r| == |cs|
  {
    if cs == [] then [] else [Pattern(cs[0].value)] + Patterns(cs[1..])
  }

  /** The clauses of the active filters. */
  function Clauses(f: ReportFilter): seq<string>
  {
    ClauseTexts(Active(Conditions(f)))
  }

  /** The arguments of the active filters. */
  function SearchArgs(f: ReportFilter): seq<string>
  {
    Patterns(Active(Conditions(f)))
  }

  /**
   * The reference definition of the search query: the prefix followed by the active
   * clauses joined with " AND ", and one wildcard pattern per active filter.
   */
  function SearchQuery(f: ReportFilter): (r: (string, seq<string>))
    ensures |r.0| >= |SearchPrefix| && r.0[..|SearchPrefix|] == SearchPrefix
    // one argument per clause, so at most three
    ensures |r.1| == |Clauses(f)| <= 3
  {
    (SearchPrefix + Join(Clauses(f), Separator), SearchArgs(f))
  }

  /** The number of filters that are set. */
  function ActiveCount(f: ReportFilter): nat
  {
    (if f.nameFilter != "" then 1 else 0) +
    (if f.manufacturerFilter != "" then 1 else 0) +
    (if f.skuFilter != "" then 1 else 0)
  }

  /** What `Active` keeps of the three filters, spelled out. */
  lemma ActiveConditions(f: ReportFilter)
    ensures Active(Conditions(f)) ==
      (if f.nameFilter != "" then [Condition(NameClause, f.nameFilter)] else []) +
      (if f.manufacturerFilter != "" then [Condition(ManufacturerClause, f.manufacturerFilter)] else []) +
      (if f.skuFilter != "" then [Condition(SkuClause, f.skuFilter)] else [])
  {
    var cs := Conditions(f);
    assert cs[1..] == [cs[1], cs[2]];
    assert cs[1..][1..] == [cs[2]];
    assert cs[1..][1..][1..] == [];
    assert Active(cs[1..][1..]) ==
      (if f.skuFilter != "" then [Condition(SkuClause, f.skuFilter)] else []);
    assert Active(cs[1..]) ==
      (if f.manufacturerFilter != "" then [Condition(ManufacturerClause, f.manufacturerFilter)] else []) +
      Active(cs[1..][1..]);
  }

  /** Filtering distributes over concatenation. */
  lemma {:induction false} ActiveConcat(a: seq<Condition>, b: seq<Condition>)
    ensures Active(a + b) == Active(a) + Active(b)
    decreases |a|
  {
    if a == [] {
      assert a + b == b;
    } else {
      ActiveConcat(a[1..], b);
      var head := if a[0].value != "" then [a[0]] else [];
      assert (a + b)[0] == a[0] && (a + b)[1..] == a[1..] + b;
      assert Active(a + b) == head + Active(a[1..] + b);
      assert Active(a) == head + Active(a[1..]);
    }
  }

  lemma ActiveOfThree(cs: seq<Condition>)
    requires |cs| == 3
    ensures Active(cs) == Active([cs[0]]) + Active([cs[1]]) + Active([cs[2]])
  {
    assert cs == [cs[0]] + [cs[1]] + [cs[2]];
    ActiveConcat([cs[0]] + [cs[1]], [cs[2]]);
    ActiveConcat([cs[0]], [cs[1]]);
  }

  lemma ClauseTextsAppend(cs: seq<Condition>, c: Condition)
    ensures ClauseTexts(cs + [c]) == ClauseTexts(cs) + [c.clause]
  {
    if cs != [] {
      assert (cs + [c])[1..] == cs[1..] + [c];
    }
  }

  lemma PatternsAppend(cs: seq<Condition>, c: Condition)
    ensures Patterns(cs + [c]) == Patterns(cs) + [Pattern(c.value)]
  {
    if cs != [] {
      assert (cs + [c])[1..] == cs[1..] + [c];
    }
  }

  /**
   * One filter step of the construction for the manufacturer and SKU filters: when the
   * filter is set, write " AND " if an argument was already added, then the clause, and
   * append the pattern. `done` are the conditions written so far after `head`.
   */
  method AppendCondition(statement: string, args: seq<string>, c: Condition, ghost head: string, ghost done: seq<Condition>)
    returns (statement': string, args': seq<string>)
    requires statement == head + Join(ClauseTexts(done), Separator) && args == Patterns(done)
    ensures var done' := done + Active([c]);
      statement' == head + Join(ClauseTexts(done'), Separator) && args' == Patterns(done')
  {
    statement', args' := statement, args;
    if c.value != "" {
      assert Active([c]) == [c];
      ClauseTextsAppend(done, c);
      PatternsAppend(done, c);
      if |args'| > 0 {
        JoinAppend(ClauseTexts(done), c.clause, Separator);
        statement' := statement' + Separator;
      }
      statement' := statement' + c.clause;
      args' := args' + [Pattern(c.value)];
    } else {
      assert Active([c]) == [];
      assert done + [] == done;
    }
  }

  /**
   * `searchForProductData`'s construction as the source performs it: write the prefix,
   * then the name clause and pattern when that filter is set, then the manufacturer and
   * SKU filters, each preceded by " AND " when an argument was already added.
   */
  method BuildSearchQuery(f: ReportFilter) returns (statement: string, args: seq<string>)
    ensures (statement, args) == SearchQuery(f)
  {
    var cs := Conditions(f);
    ghost var done: seq<Condition> := [];
    statement := SearchPrefix;
    args := [];
    if f.nameFilter != "" {
      statement := statement + NameClause;
      args := args + [Pattern(f.nameFilter)];
      done := [cs[0]];
    }
    assert done == Active([cs[0]]);
    statement, args := AppendCondition(statement, args, cs[1], SearchPrefix, done);
    done := done + Active([cs[1]]);
    statement, args := AppendCondition(statement, args, cs[2], SearchPrefix, done);
    done := done + Active([cs[2]]);
    ActiveOfThree(cs);
  }

  // ---------------------------------------------------------------- properties

  /** The fixed prefix ends in "WHERE ". */
  lemma PrefixEndsInWhere()
    ensures SearchPrefix[|SearchPrefix| - 6..] == "WHERE "
  {
  }

  /** The fixed prefix holds no placeholder. */
  lemma PrefixHasNoPlaceholder()
    ensures Placeholders(SearchPrefix) == 0
  {
    PrefixHasNoQuestionMark();
    CountCharAbsent(SearchPrefix, '?');
  }

  lemma PrefixHasNoQuestionMark()
    ensures '?' !in SearchPrefix
  {
    SelectLinesHaveNoQuestionMark();
    ColumnLinesHaveNoQuestionMark();
    LastLinesHaveNoQuestionMark();
  }

  // One small lemma per stretch of the prefix: the solver checks a short literal cheaply.
  lemma SelectLinesHaveNoQuestionMark()
    ensures '?' !in "SELECT \n" + "\t\tproductId, \n"
    ensures '?' !in "\t\tLOWER(manufacturer), \n"
  {
  }

  lemma ColumnLinesHaveNoQuestionMark()
    ensures '?' !in "\t\tLOWER(sku), \n" + "\t\tupc, \n" + "\t\tpricePerUnit, \n"
  {
  }

  lemma LastLinesHaveNoQuestionMark()
    ensures '?' !in "\t\tquantityOnHand, \n" + "\t\tLOWER(productName) \n"
    ensures '?' !in "\t\tFROM products WHERE "
  {
  }


  /** One argument per set filter, so between none and three. */
  lemma ArgsCount(f: ReportFilter)
    ensures |SearchQuery(f).1| == ActiveCount(f) <= 3
  {
    ActiveConditions(f);
  }

  /** The arguments follow the order name, manufacturer, SKU, each the lower-cased filter between wildcards. */
  lemma ArgsInOrder(f: ReportFilter)
    ensures SearchQuery(f).1 ==
      (if f.nameFilter != "" then ["%" + ToLower(f.nameFilter) + "%"] else []) +
      (if f.manufacturerFilter != "" then ["%" + ToLower(f.manufacturerFilter) + "%"] else []) +
      (if f.skuFilter != "" then ["%" + ToLower(f.skuFilter) + "%"] else [])
  {
    ActiveConditions(f);
    PatternsOfActive(f);
  }

  lemma PatternsOfActive(f: ReportFilter)
    ensures Patterns(Active(Conditions(f))) ==
      (if f.nameFilter != "" then [Pattern(f.nameFilter)] else []) +
      (if f.manufacturerFilter != "" then [Pattern(f.manufacturerFilter)] else []) +
      (if f.skuFilter != "" then [Pattern(f.skuFilter)] else [])
  {
    ActiveConditions(f);
    var n := if f.nameFilter != "" then [Condition(NameClause, f.nameFilter)] else [];
    var m := if f.manufacturerFilter != "" then [Condition(ManufacturerClause, f.manufacturerFilter)] else [];
    var k := if f.skuFilter != "" then [Condition(SkuClause, f.skuFilter)] else [];
    PatternsConcat(n, m);
    PatternsConcat(n + m, k);
  }

  lemma {:induction false} PatternsConcat(a: seq<Condition>, b: seq<Condition>)
    ensures Patterns(a + b) == Patterns(a) + Patterns(b)
    decreases |a|
  {
    if a == [] {
      assert a + b == b;
    } else {
      PatternsConcat(a[1..], b);
      assert (a + b)[1..] == a[1..] + b;
    }
  }

  lemma {:induction false} ClauseTextsConcat(a: seq<Condition>, b: seq<Condition>)
    ensures ClauseTexts(a + b) == ClauseTexts(a) + ClauseTexts(b)
    decreases |a|
  {
    if a == [] {
      assert a + b == b;
    } else {
      ClauseTextsConcat(a[1..], b);
      assert (a + b)[0] == a[0] && (a + b)[1..] == a[1..] + b;
      assert ClauseTexts(a + b) == [a[0].clause] + ClauseTexts(a[1..] + b);
      assert ClauseTexts(a) == [a[0].clause] + ClauseTexts(a[1..]);
    }
  }

  /** The clauses of the set filters, spelled out. */
  lemma ClausesOfActive(f: ReportFilter)
    ensures Clauses(f) ==
      (if f.nameFilter != "" then [NameClause] else []) +
      (if f.manufacturerFilter != "" then [ManufacturerClause] else []) +
      (if f.skuFilter != "" then [SkuClause] else [])
  {
    ActiveConditions(f);
    var n := if f.nameFilter != "" then [Condition(NameClause, f.nameFilter)] else [];
    var m := if f.manufacturerFilter != "" then [Condition(ManufacturerClause, f.manufacturerFilter)] else [];
    var k := if f.skuFilter != "" then [Condition(SkuClause, f.skuFilter)] else [];
    ClauseTextsConcat(n, m);
    ClauseTextsConcat(n + m, k);
  }

  /** Joining parts with one placeholder each by a placeholder-free separator gives one placeholder per part. */
  lemma {:induction false} PlaceholdersOfJoin(parts: seq<string>, sep: string)
    requires Placeholders(sep) == 0
    requires forall k :: 0 <= k < |parts| ==> Placeholders(parts[k]) == 1
    ensures Placeholders(Join(parts, sep)) == |parts|
    decreases |parts|
  {
    if |parts| > 1 {
      PlaceholdersOfJoin(parts[1..], sep);
      assert Join(parts, sep) == parts[0] + sep + Join(parts[1..], sep);
      CountCharConcat(parts[0] + sep, Join(parts[1..], sep), '?');
      CountCharConcat(parts[0], sep, '?');
    }
  }

  /** A clause `column + " LIKE ? "` holds one placeholder and no 'A' when the column name holds neither. */
  lemma LikeClause(column: string)
    requires '?' !in column && 'A' !in column
    ensures Placeholders(column + " LIKE ? ") == 1 && 'A' !in column + " LIKE ? "
  {
    assert column + " LIKE ? " == column + " LIKE " + ['?'] + " ";
    CountCharOnce(column + " LIKE ", " ", '?');
  }

  /** A clause text as the statement needs it: one placeholder and no 'A' (the separator's second character). */
  predicate WellFormedClause(c: string)
  {
    Placeholders(c) == 1 && 'A' !in c
  }

  lemma NameClauseText()
    ensures WellFormedClause(NameClause)
  {
    assert NameClause == "productName" + " LIKE ? ";
    LikeClause("productName");
  }

  lemma ManufacturerClauseText()
    ensures WellFormedClause(ManufacturerClause)
  {
    assert ManufacturerClause == "manufacturer" + " LIKE ? ";
    LikeClause("manufacturer");
  }

  lemma SkuClauseText()
    ensures WellFormedClause(SkuClause)
  {
    assert SkuClause == "sku" + " LIKE ? ";
    LikeClause("sku");
  }

  lemma SeparatorText()
    ensures Placeholders(Separator) == 0 && Separator[1] == 'A'
  {
    CountCharAbsent(Separator, '?');
  }

  /** Every clause of the statement is one of the three filter clauses. */
  lemma ClausesAreFilterClauses(f: ReportFilter)
    ensures forall k :: 0 <= k < |Clauses(f)| ==>
      Clauses(f)[k] == NameClause || Clauses(f)[k] == ManufacturerClause || Clauses(f)[k] == SkuClause
  {
    ClausesOfActive(f);
  }

  /** Every clause of the statement holds one placeholder and no 'A'. */
  lemma ClauseFacts(f: ReportFilter)
    ensures forall k :: 0 <= k < |Clauses(f)| ==> WellFormedClause(Clauses(f)[k])
  {
    ClausesAreFilterClauses(f);
    NameClauseText();
    ManufacturerClauseText();
    SkuClauseText();
  }

  /** The statement holds exactly one `?` placeholder per argument. */
  lemma PlaceholdersMatchArgs(f: ReportFilter)
    ensures Placeholders(SearchQuery(f).0) == |SearchQuery(f).1|
  {
    var cs := Clauses(f);
    ClauseFacts(f);
    SeparatorText();
    PlaceholdersOfJoin(cs, Separator);
    PrefixHasNoPlaceholder();
    CountCharConcat(SearchPrefix, Join(cs, Separator), '?');
  }

  /**
   * With at least one filter set, cutting the text after the prefix at every " AND "
   * gives back exactly the clauses: one separator between consecutive clauses, none
   * before the first and none after the last.
   */
  lemma SeparatorsBetweenClauses(f: ReportFilter)
    requires ActiveCount(f) > 0
    ensures Split(SearchQuery(f).0[|SearchPrefix|..], Separator) == Clauses(f)
    ensures |Clauses(f)| == ActiveCount(f)
  {
    var cs := Clauses(f);
    ArgsCount(f);
    ClauseFacts(f);
    SeparatorText();
    forall k, i | 0 <= k < |cs| && 0 <= i < |cs[k]|
      ensures cs[k][i] != Separator[1]
    {
    }
    JoinThenSplit(cs, Separator);
    assert SearchQuery(f).0[|SearchPrefix|..] == Join(cs, Separator);
  }

  /** An empty filter contributes no clause: each clause is present exactly when its filter is set. */
  lemma ClausePresence(f: ReportFilter)
    ensures NameClause in Clauses(f) <==> f.nameFilter != ""
    ensures ManufacturerClause in Clauses(f) <==> f.manufacturerFilter != ""
    ensures SkuClause in Clauses(f) <==> f.skuFilter != ""
  {
    ClausesOfActive(f);
  }

  /**
   * With every filter empty the statement is the bare prefix ending in a dangling
   * "WHERE " and there are no arguments; with any filter set it is not.
   */
  lemma NoFiltersLeavesDanglingWhere(f: ReportFilter)
    ensures SearchQuery(f) == (SearchPrefix, []) <==> ActiveCount(f) == 0
  {
    ClausesOfActive(f);
    ArgsCount(f);
    if ActiveCount(f) == 0 {
      assert Clauses(f) == [];
      assert SearchPrefix + "" == SearchPrefix;
    }
  }
}
