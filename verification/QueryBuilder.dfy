// Optional filters with numbered placeholders, chained over several builders
// that share one argument list, and what the resulting SQL text means.
module QueryBuilder {
  import opened Decimals
  import opened Options

  datatype Cmp = Eq | Gte | Lte | Like

  /** One optional filter: nothing is added to the query when val is nil. */
  datatype Filter = Filter(op: Cmp, col: string, val: Option<string>)

  function Name(op: Cmp): string {
    match op
    case Eq => "="
    case Gte => ">="
    case Lte => "<="
    case Like => "LIKE"
  }

  function Clause(op: Cmp, col: string, n: nat): string {
    col + " " + Name(op) + " $" + Decimal(n)
  }

  class Builder {
    var paramIdx: nat
    var clauses: seq<string>
    var args: seq<string>
    ghost var start: nat
    ghost var filters: seq<Filter>

    constructor (startParam: nat)
      ensures Valid() && start == startParam && filters == []
    {
      paramIdx, clauses, args := startParam, [], [];
      start, filters := startParam, [];
    }

    /** The builder started at start and was given filters, nil ones included, in this order. */
    ghost predicate Valid()
      reads this
    {
      paramIdx == start + |ArgsOf(filters)| && clauses == ClausesOf(start, filters) && args == ArgsOf(filters)
    }

    method AddOptional(col: string, val: Option<string>)
      requires Valid()
      modifies this
      ensures Valid() && start == old(start) && filters == old(filters) + [Filter(Eq, col, val)]
    {
      AddedLast(start, filters, Filter(Eq, col, val));
      filters := filters + [Filter(Eq, col, val)];
      if val.None? {
        return;
      }
      clauses := clauses + [col + " = $" + Decimal(paramIdx)];
      args := args + [val.value];
      paramIdx := paramIdx + 1;
      assert clauses[|clauses| - 1] == Clause(Eq, col, old(paramIdx));
    }

    method AddOptionalGte(col: string, val: Option<string>)
      requires Valid()
      modifies this
      ensures Valid() && start == old(start) && filters == old(filters) + [Filter(Gte, col, val)]
    {
      AddedLast(start, filters, Filter(Gte, col, val));
      filters := filters + [Filter(Gte, col, val)];
      if val.None? {
        return;
      }
      clauses := clauses + [col + " >= $" + Decimal(paramIdx)];
      args := args + [val.value];
      paramIdx := paramIdx + 1;
      assert clauses[|clauses| - 1] == Clause(Gte, col, old(paramIdx));
    }

    method AddOptionalLte(col: string, val: Option<string>)
      requires Valid()
      modifies this
      ensures Valid() && start == old(start) && filters == old(filters) + [Filter(Lte, col, val)]
    {
      AddedLast(start, filters, Filter(Lte, col, val));
      filters := filters + [Filter(Lte, col, val)];
      if val.None? {
        return;
      }
      clauses := clauses + [col + " <= $" + Decimal(paramIdx)];
      args := args + [val.value];
      paramIdx := paramIdx + 1;
      assert clauses[|clauses| - 1] == Clause(Lte, col, old(paramIdx));
    }

    method AddOptionalLike(col: string, val: Option<string>)
      requires Valid()
      modifies this
      ensures Valid() && start == old(start) && filters == old(filters) + [Filter(Like, col, val)]
    {
      AddedLast(start, filters, Filter(Like, col, val));
      filters := filters + [Filter(Like, col, val)];
      if val.None? {
        return;
      }
      clauses := clauses + [col + " LIKE $" + Decimal(paramIdx)];
      args := args + [val.value];
      paramIdx := paramIdx + 1;
      assert clauses[|clauses| - 1] == Clause(Like, col, old(paramIdx));
    }

    method WhereClause() returns (text: string)
      requires Valid()
      ensures text == Where(start, filters) && args == ArgsOf(filters)
    {
      text := "";
      var i := 0;
      while i < |clauses|
        invariant 0 <= i <= |clauses|
        invariant text + Joined(clauses[i..]) == Joined(clauses)
      {
        assert clauses[i..][1..] == clauses[i + 1..];
        assert text + (" AND " + clauses[i] + Joined(clauses[i + 1..])) == text + " AND " + clauses[i] + Joined(clauses[i + 1..]);
        text := text + " AND ";
        text := text + clauses[i];
        i := i + 1;
      }
      assert text + "" == text;
    }

    method NextParam() returns (n: nat)
      requires Valid()
      ensures n == start + |ArgsOf(filters)|
    {
      n := paramIdx;
    }
  }

  // ---- What a builder holds, as functions of the filters ----

  function ArgsOf(filters: seq<Filter>): seq<string> {
    if filters == [] then []
    else (if filters[0].val.None? then [] else [filters[0].val.value]) + ArgsOf(filters[1..])
  }

  function ClausesOf(start: nat, filters: seq<Filter>): seq<string>
    decreases filters
  {
    if filters == [] then []
    else if filters[0].val.None? then ClausesOf(start, filters[1..])
    else [Clause(filters[0].op, filters[0].col, start)] + ClausesOf(start + 1, filters[1..])
  }

  function Joined(clauses: seq<string>): string {
    if clauses == [] then "" else " AND " + clauses[0] + Joined(clauses[1..])
  }

  function Where(start: nat, filters: seq<Filter>): string {
    Joined(ClausesOf(start, filters))
  }

  lemma {:induction false} ArgsAppend(filters: seq<Filter>, f: Filter)
    ensures ArgsOf(filters + [f]) == ArgsOf(filters) + (if f.val.None? then [] else [f.val.value])
  {
    var g := filters + [f];
    if filters == [] {
      assert g[1..] == [];
    } else {
      assert g[1..] == filters[1..] + [f];
      ArgsAppend(filters[1..], f);
    }
  }

  lemma {:induction false} AddedLast(start: nat, filters: seq<Filter>, f: Filter)
    ensures ArgsOf(filters + [f]) == ArgsOf(filters) + (if f.val.None? then [] else [f.val.value])
    ensures ClausesOf(start, filters + [f]) == ClausesOf(start, filters)
            + (if f.val.None? then [] else [Clause(f.op, f.col, start + |ArgsOf(filters)|)])
    decreases filters
  {
    ArgsAppend(filters, f);
    hide Clause;
    var g := filters + [f];
    if filters == [] {
      assert g[1..] == [];
    } else {
      assert g[1..] == filters[1..] + [f];
      AddedLast(if filters[0].val.None? then start else start + 1, filters[1..], f);
    }
  }

  // ---- What the text means ----

  /** "column op value", for a value bound to a placeholder. */
  datatype Fact = Fact(op: Cmp, col: string, val: string)

  function Find(s: string, c: char): (i: nat)
    ensures i <= |s|
    ensures i < |s| ==> s[i] == c
    ensures forall k :: 0 <= k < i ==> s[k] != c
  {
    if s == "" || s[0] == c then 0 else 1 + Find(s[1..], c)
  }

  function OpNamed(s: string): Option<Cmp> {
    if s == "=" then Some(Eq)
    else if s == ">=" then Some(Gte)
    else if s == "<=" then Some(Lte)
    else if s == "LIKE" then Some(Like)
    else None
  }

  /** The placeholder "$k" at the head of s: the argument it names and what follows it. */
  function Placeholder(s: string, args: seq<string>): (r: Option<(string, string)>)
    ensures r.Some? ==> |r.value.1| < |s|
  {
    if s == "" || s[0] != '$' then None
    else
      var d := DigitsLen(s[1..]);
      var n := Value(s[1..][..d]);
      if d == 0 || n < 1 || n > |args| then None else Some((args[n - 1], s[1..][d..]))
  }

  /** The text up to the first space, and what follows that space. */
  function Word(s: string): (r: Option<(string, string)>)
    ensures r.Some? ==> |r.value.1| < |s|
  {
    var i := Find(s, ' ');
    if i == |s| then None else Some((s[..i], s[i + 1..]))
  }

  /** The first clause of a text, read from left to right, and what follows it. */
  function ReadClause(text: string, args: seq<string>): (r: Option<(Fact, string)>)
    ensures r.Some? ==> |r.value.1| < |text|
  {
    if |text| < 5 || text[..5] != " AND " then None
    else
      match Word(text[5..])
      case None => None
      case Some((col, t)) =>
        match Word(t)
        case None => None
        case Some((op, u)) =>
          if OpNamed(op).None? then None
          else
            match Placeholder(u, args)
            case None => None
            case Some((arg, rest)) => Some((Fact(OpNamed(op).value, col, arg), rest))
  }

  /**
   * Whether a row that meets exactly the comparisons in row passes the clauses
   * in text with the given arguments; None if the text cannot be read or a
   * placeholder has no argument.
   */
  function Eval(text: string, args: seq<string>, row: iset<Fact>): Option<bool>
    decreases |text|
  {
    if text == "" then Some(true)
    else
      match ReadClause(text, args)
      case None => None
      case Some((fact, rest)) =>
        match Eval(rest, args, row)
        case None => None
        case Some(b) => Some(fact in row && b)
  }

  /** What the caller asked for: the row passes every filter that is not nil. */
  ghost predicate Passes(filters: seq<Filter>, row: iset<Fact>) {
    forall f :: f in filters && f.val.Some? ==> Fact(f.op, f.col, f.val.value) in row
  }

  ghost predicate PlainColumns(filters: seq<Filter>) {
    forall i :: 0 <= i < |filters| ==> ' ' !in filters[i].col
  }

  lemma {:induction false} WordReads(w: string, rest: string)
    requires ' ' !in w
    ensures Word(w + (" " + rest)) == Some((w, rest))
  {
    var t := w + (" " + rest);
    assert forall k :: 0 <= k < |w| ==> t[k] == w[k] && w[k] in w;
    assert t[|w|] == ' ';
    assert Find(t, ' ') == |w|;
    assert t[..|w|] == w && t[|w| + 1..] == rest;
  }

  lemma PlaceholderReads(n: nat, rest: string, args: seq<string>)
    requires rest == "" || !IsDigit(rest[0])
    ensures Placeholder("$" + (Decimal(n) + rest), args)
            == if 1 <= n <= |args| then Some((args[n - 1], rest)) else None
  {
    DecimalRoundTrip(n);
    DigitsEnd(Decimal(n), rest);
    var t := Decimal(n) + rest;
    assert ("$" + t)[1..] == t;
  }

  lemma Regroup(col: string, op: string, n: string, rest: string)
    ensures " AND " + (col + " " + op + " $" + n) + rest == " AND " + (col + (" " + (op + (" " + ("$" + (n + rest))))))
  {
  }

  /** A clause reads back as itself, with the argument its number names. */
  lemma ClauseReads(op: Cmp, col: string, n: nat, rest: string, args: seq<string>)
    requires ' ' !in col && (rest == "" || !IsDigit(rest[0]))
    ensures ReadClause(" AND " + Clause(op, col, n) + rest, args)
            == if 1 <= n <= |args| then Some((Fact(op, col, args[n - 1]), rest)) else None
  {
    hide Decimal, Word, Placeholder;
    var p := "$" + (Decimal(n) + rest);
    var u := Name(op) + (" " + p);
    var t := col + (" " + u);
    Regroup(col, Name(op), Decimal(n), rest);
    assert (" AND " + t)[..5] == " AND " && (" AND " + t)[5..] == t;
    WordReads(col, u);
    WordReads(Name(op), p);
    PlaceholderReads(n, rest, args);
    assert OpNamed(Name(op)) == Some(op);
  }

  lemma WhereShape(start: nat, filters: seq<Filter>)
    requires filters != [] && filters[0].val.Some?
    ensures Where(start, filters)
            == " AND " + Clause(filters[0].op, filters[0].col, start) + Where(start + 1, filters[1..])
    ensures Where(start + 1, filters[1..]) == "" || !IsDigit(Where(start + 1, filters[1..])[0])
  {
    var c := Clause(filters[0].op, filters[0].col, start);
    assert ([c] + ClausesOf(start + 1, filters[1..]))[1..] == ClausesOf(start + 1, filters[1..]);
  }

  /** Reading the text of a builder whose first filter is not nil. */
  lemma FirstFilterReads(start: nat, filters: seq<Filter>, args: seq<string>, row: iset<Fact>)
    requires filters != [] && filters[0].val.Some? && ' ' !in filters[0].col
    ensures Eval(Where(start, filters), args, row)
            == var rest := Eval(Where(start + 1, filters[1..]), args, row);
               if 1 <= start <= |args| && rest.Some?
               then Some(Fact(filters[0].op, filters[0].col, args[start - 1]) in row && rest.value) else None
  {
    hide Where, ReadClause, Clause, Decimal;
    var tail := Where(start + 1, filters[1..]);
    WhereShape(start, filters);
    ClauseReads(filters[0].op, filters[0].col, start, tail, args);
    assert Where(start, filters) != "";
  }

  lemma PassesFirst(f: Filter, rest: seq<Filter>, row: iset<Fact>)
    ensures Passes([f] + rest, row) <==> (f.val.Some? ==> Fact(f.op, f.col, f.val.value) in row) && Passes(rest, row)
  {
    assert forall g :: g in [f] + rest <==> g == f || g in rest;
  }

  /**
   * A builder that starts just after the arguments bound before it: its text,
   * with all the arguments of the query, means its own filters that are not nil.
   */
  lemma {:induction false} WhereMeansFilters(before: seq<string>, filters: seq<Filter>, after: seq<string>, row: iset<Fact>)
    requires PlainColumns(filters)
    ensures Eval(Where(|before| + 1, filters), before + ArgsOf(filters) + after, row) == Some(Passes(filters, row))
    decreases filters
  {
    hide Eval, Passes, ArgsOf, Where;
    if filters == [] {
      NoFilters(|before| + 1, before + ArgsOf(filters) + after, row);
    } else {
      var f, rest := filters[0], filters[1..];
      var args := before + ArgsOf(filters) + after;
      assert filters == [f] + rest;
      PassesFirst(f, rest, row);
      PlainRest(filters);
      ArgsFirst(filters);
      if f.val.None? {
        NilAddsNothing(|before| + 1, filters);
        assert ArgsOf(filters) == ArgsOf(rest);
        WhereMeansFilters(before, rest, after, row);
      } else {
        WhereMeansFilters(before + [f.val.value], rest, after, row);
        assert before + [f.val.value] + ArgsOf(rest) + after == args;
        FirstFilterReads(|before| + 1, filters, args, row);
        assert args[|before|] == f.val.value;
      }
    }
  }

  lemma NilAddsNothing(start: nat, filters: seq<Filter>)
    requires filters != [] && filters[0].val.None?
    ensures Where(start, filters) == Where(start, filters[1..])
  {
  }

  lemma ArgsFirst(filters: seq<Filter>)
    requires filters != []
    ensures filters[0].val.None? ==> ArgsOf(filters) == ArgsOf(filters[1..])
    ensures filters[0].val.Some? ==> ArgsOf(filters) == [filters[0].val.value] + ArgsOf(filters[1..])
  {
  }

  lemma PlainRest(filters: seq<Filter>)
    requires filters != [] && PlainColumns(filters)
    ensures ' ' !in filters[0].col && PlainColumns(filters[1..])
  {
  }

  lemma NoFilters(start: nat, args: seq<string>, row: iset<Fact>)
    ensures Eval(Where(start, []), args, row) == Some(true) && Passes([], row)
  {
  }

  // ---- The start number matters ----

  ghost predicate MeansItsFilters(start: nat, before: seq<string>) {
    forall filters, after, row :: PlainColumns(filters) ==>
      Eval(Where(start, filters), before + ArgsOf(filters) + after, row) == Some(Passes(filters, row))
  }

  lemma OneFilterWrongStart(start: nat, before: seq<string>, v: string)
    requires start != |before| + 1
    requires 1 <= start <= |before| ==> v != before[start - 1]
    ensures Eval(Where(start, [Filter(Eq, "c", Some(v))]), before + [v], iset{Fact(Eq, "c", v)}) != Some(true)
  {
    hide Eval, Where;
    var filters := [Filter(Eq, "c", Some(v))];
    assert filters[1..] == [];
    NoFilters(start + 1, before + [v], iset{Fact(Eq, "c", v)});
    FirstFilterReads(start, filters, before + [v], iset{Fact(Eq, "c", v)});
  }

  lemma WrongStartMisreads(start: nat, before: seq<string>)
    requires start != |before| + 1
    ensures !MeansItsFilters(start, before)
  {
    hide Eval, Where;
    var v := if 1 <= start <= |before| then before[start - 1] + "x" else "";
    assert 1 <= start <= |before| ==> |v| == |before[start - 1]| + 1;
    var f := Filter(Eq, "c", Some(v));
    var row := iset{Fact(Eq, "c", v)};
    OneFilterWrongStart(start, before, v);
    assert ArgsOf([f]) == [v] by { ArgsFirst([f]); assert [f][1..] == []; }
    assert before + ArgsOf([f]) + [] == before + [v];
    assert PlainColumns([f]) by { assert ' ' !in "c"; }
    assert Passes([f], row);
  }

  /** A builder's text is right for all filters and rows exactly when it starts at the next free number. */
  lemma RightStartIff(start: nat, before: seq<string>)
    ensures MeansItsFilters(start, before) <==> start == |before| + 1
  {
    if start == |before| + 1 {
      forall filters, after, row | PlainColumns(filters)
        ensures Eval(Where(start, filters), before + ArgsOf(filters) + after, row) == Some(Passes(filters, row))
      {
        WhereMeansFilters(before, filters, after, row);
      }
    } else {
      WrongStartMisreads(start, before);
    }
  }

  // ---- Chains: each builder starts where the one before it stopped ----

  function ArgsOfAll(groups: seq<seq<Filter>>): seq<string> {
    if groups == [] then [] else ArgsOfAll(groups[..|groups| - 1]) + ArgsOf(groups[|groups| - 1])
  }

  /** The texts of the builders, the first of which starts at start. */
  function Texts(start: nat, groups: seq<seq<Filter>>): (texts: seq<string>)
    ensures |texts| == |groups|
  {
    if groups == [] then []
    else
      var init := groups[..|groups| - 1];
      Texts(start, init) + [Where(start + |ArgsOfAll(init)|, groups[|groups| - 1])]
  }

  /**
   * Any number of chained builders, after any fixed arguments and before any
   * later ones: each text means exactly its own builder's filters.
   */
  lemma {:induction false} ChainMeansFilters(fixedArgs: seq<string>, groups: seq<seq<Filter>>, after: seq<string>, i: nat, row: iset<Fact>)
    requires forall j :: 0 <= j < |groups| ==> PlainColumns(groups[j])
    requires i < |groups|
    ensures Eval(Texts(|fixedArgs| + 1, groups)[i], fixedArgs + ArgsOfAll(groups) + after, row)
            == Some(Passes(groups[i], row))
  {
    hide Eval, Where, Passes, ArgsOf, PlainColumns;
    var n := |groups| - 1;
    var init, last := groups[..n], groups[n];
    var start := |fixedArgs| + 1;
    if i < n {
      assert Texts(start, groups)[i] == Texts(start, init)[i];
      ChainMeansFilters(fixedArgs, init, ArgsOf(last) + after, i, row);
      assert fixedArgs + ArgsOfAll(init) + (ArgsOf(last) + after) == fixedArgs + ArgsOfAll(groups) + after;
    } else {
      var before := fixedArgs + ArgsOfAll(init);
      WhereMeansFilters(before, last, after, row);
      assert before + ArgsOf(last) + after == fixedArgs + ArgsOfAll(groups) + after;
    }
  }

  // ---- Queries with several builders ----

  /** A text means filters, for every row, once args are bound to its placeholders. */
  ghost predicate Means(text: string, args: seq<string>, filters: seq<Filter>) {
    forall row :: Eval(text, args, row) == Some(Passes(filters, row))
  }

  lemma MeansOwnFilters(start: nat, before: seq<string>, filters: seq<Filter>, after: seq<string>)
    requires PlainColumns(filters) && start == |before| + 1
    ensures Means(Where(start, filters), before + ArgsOf(filters) + after, filters)
  {
    forall row ensures Eval(Where(start, filters), before + ArgsOf(filters) + after, row) == Some(Passes(filters, row)) {
      WhereMeansFilters(before, filters, after, row);
    }
  }

  /** The filters of the portfolio summary: the same two values for three tables. */
  function OrgRepo(orgCol: string, repoCol: string, org: Option<string>, repo: Option<string>): seq<Filter> {
    [Filter(Eq, orgCol, org), Filter(Eq, repoCol, repo)]
  }

  /** A row's column compares as asked with the value, or none is given. */
  ghost predicate Matches(op: Cmp, col: string, val: Option<string>, row: iset<Fact>) {
    val.None? || Fact(op, col, val.value) in row
  }

  /** A row is of the org and of the repo asked for. */
  ghost predicate RowOf(orgCol: string, repoCol: string, org: Option<string>, repo: Option<string>, row: iset<Fact>) {
    Matches(Eq, orgCol, org, row) && Matches(Eq, repoCol, repo, row)
  }

  lemma OrgRepoMeans(orgCol: string, repoCol: string, org: Option<string>, repo: Option<string>, row: iset<Fact>)
    ensures Passes(OrgRepo(orgCol, repoCol, org, repo), row) <==> RowOf(orgCol, repoCol, org, repo, row)
  {
    var fs := OrgRepo(orgCol, repoCol, org, repo);
    assert fs[0] in fs && fs[1] in fs;
  }

  method OrgRepoBuilder(start: nat, orgCol: string, repoCol: string, org: Option<string>, repo: Option<string>)
    returns (qb: Builder)
    ensures qb.Valid() && fresh(qb) && qb.start == start && qb.filters == OrgRepo(orgCol, repoCol, org, repo)
  {
    qb := new Builder(start);
    qb.AddOptional(orgCol, org);
    qb.AddOptional(repoCol, repo);
  }

  /** $1 and $2 are fixed; the metadata, history and event filters are numbered one after the other. */
  method PortfolioSummaryQuery(org: Option<string>, repo: Option<string>, since: string, thirtyDaysAgo: string)
    returns (meta: string, hist: string, event: string, args: seq<string>)
    ensures |args| >= 2 && args[0] == since && args[1] == thirtyDaysAgo
    ensures forall row :: Eval(meta, args, row) == Some(RowOf("org", "repo", org, repo, row))
    ensures forall row :: Eval(hist, args, row) == Some(RowOf("org", "repo", org, repo, row))
    ensures forall row :: Eval(event, args, row) == Some(RowOf("e.org", "e.repo", org, repo, row))
    ensures Means(meta, args, OrgRepo("org", "repo", org, repo))
    ensures Means(hist, args, OrgRepo("org", "repo", org, repo))
    ensures Means(event, args, OrgRepo("e.org", "e.repo", org, repo))
  {
    hide ArgsOf, Where, Means, Builder.Valid, OrgRepo, Eval, RowOf;
    var qbMeta := OrgRepoBuilder(3, "org", "repo", org, repo);
    var n := qbMeta.NextParam();
    var qbHist := OrgRepoBuilder(n, "org", "repo", org, repo);
    n := qbHist.NextParam();
    var qbEvent := OrgRepoBuilder(n, "e.org", "e.repo", org, repo);

    meta := qbMeta.WhereClause();
    hist := qbHist.WhereClause();
    event := qbEvent.WhereClause();
    args := [since, thirtyDaysAgo];
    args := args + qbMeta.args;
    args := args + qbHist.args;
    args := args + qbEvent.args;

    ThreeBuildersMean([since, thirtyDaysAgo], qbMeta.filters, qbHist.filters, qbEvent.filters, org, repo);
    MeansRows(meta, args, "org", "repo", org, repo);
    MeansRows(hist, args, "org", "repo", org, repo);
    MeansRows(event, args, "e.org", "e.repo", org, repo);
  }

  lemma MeansRows(text: string, args: seq<string>, orgCol: string, repoCol: string, org: Option<string>, repo: Option<string>)
    requires Means(text, args, OrgRepo(orgCol, repoCol, org, repo))
    ensures forall row :: Eval(text, args, row) == Some(RowOf(orgCol, repoCol, org, repo, row))
  {
    forall row ensures Eval(text, args, row) == Some(RowOf(orgCol, repoCol, org, repo, row)) {
      OrgRepoMeans(orgCol, repoCol, org, repo, row);
    }
  }

  lemma ThreeBuildersMean(fixedArgs: seq<string>, f: seq<Filter>, g: seq<Filter>, e: seq<Filter>,
                          org: Option<string>, repo: Option<string>)
    requires f == g == OrgRepo("org", "repo", org, repo) && e == OrgRepo("e.org", "e.repo", org, repo)
    ensures var args := fixedArgs + ArgsOf(f) + ArgsOf(g) + ArgsOf(e);
            var s1 := |fixedArgs| + 1;
            var s2 := s1 + |ArgsOf(f)|;
            Means(Where(s1, f), args, f) && Means(Where(s2, g), args, g) && Means(Where(s2 + |ArgsOf(g)|, e), args, e)
  {
    hide ArgsOf, Where, Means;
    assert PlainColumns(f) && PlainColumns(e);
    var a, b, c := ArgsOf(f), ArgsOf(g), ArgsOf(e);
    var args := fixedArgs + a + b + c;
    var s := |fixedArgs| + 1;
    MeansOwnFilters(s, fixedArgs, f, b + c);
    assert fixedArgs + a + (b + c) == args;
    MeansOwnFilters(s + |a|, fixedArgs + a, g, c);
    MeansOwnFilters(s + |a| + |b|, fixedArgs + a + b, e, []);
    assert args + [] == args;
  }

  datatype Criteria = Criteria(fromDate: Option<string>, toDate: Option<string>, kind: Option<string>,
                               org: Option<string>, repo: Option<string>, username: Option<string>,
                               mention: Option<string>, tag: Option<string>, entity: Option<string>)

  function EventFilters(c: Criteria): seq<Filter> {
    [Filter(Gte, "e.date", c.fromDate), Filter(Lte, "e.date", c.toDate), Filter(Eq, "e.type", c.kind),
     Filter(Eq, "e.org", c.org), Filter(Eq, "e.repo", c.repo), Filter(Eq, "e.username", c.username),
     Filter(Like, "e.mentions", OptionalLike(c.mention)), Filter(Like, "e.labels", OptionalLike(c.tag)),
     Filter(Eq, "d.entity", c.entity)]
  }

  function OptionalLike(s: Option<string>): Option<string> {
    if s.None? || s.value == "" then None else Some("%" + s.value + "%")
  }

  method EventSearchBuilder(c: Criteria) returns (qb: Builder)
    ensures qb.Valid() && qb.start == 1 && qb.filters == EventFilters(c)
  {
    hide Builder.Valid, OptionalLike;
    qb := new Builder(1);
    qb.AddOptionalGte("e.date", c.fromDate);
    qb.AddOptionalLte("e.date", c.toDate);
    qb.AddOptional("e.type", c.kind);
    qb.AddOptional("e.org", c.org);
    qb.AddOptional("e.repo", c.repo);
    qb.AddOptional("e.username", c.username);
    qb.AddOptionalLike("e.mentions", OptionalLike(c.mention));
    qb.AddOptionalLike("e.labels", OptionalLike(c.tag));
    qb.AddOptional("d.entity", c.entity);
  }

  /** An event within the dates and with everything else asked for; mentions and labels need only contain their text. */
  ghost predicate EventFound(c: Criteria, row: iset<Fact>) {
    && Matches(Gte, "e.date", c.fromDate, row) && Matches(Lte, "e.date", c.toDate, row)
    && Matches(Eq, "e.type", c.kind, row)
    && Matches(Eq, "e.org", c.org, row) && Matches(Eq, "e.repo", c.repo, row)
    && Matches(Eq, "e.username", c.username, row)
    && (c.mention.None? || c.mention.value == "" || Fact(Like, "e.mentions", "%" + c.mention.value + "%") in row)
    && (c.tag.None? || c.tag.value == "" || Fact(Like, "e.labels", "%" + c.tag.value + "%") in row)
    && Matches(Eq, "d.entity", c.entity, row)
  }

  lemma PassesThree(f: Filter, g: Filter, h: Filter, rest: seq<Filter>, row: iset<Fact>)
    ensures Passes([f, g, h] + rest, row) <==>
      && Matches(f.op, f.col, f.val, row) && Matches(g.op, g.col, g.val, row) && Matches(h.op, h.col, h.val, row)
      && Passes(rest, row)
  {
    assert [f, g, h] + rest == [f] + ([g] + ([h] + rest));
    PassesFirst(h, rest, row);
    PassesFirst(g, [h] + rest, row);
    PassesFirst(f, [g] + ([h] + rest), row);
    hide Passes;
  }

  lemma EventFiltersMean(c: Criteria, row: iset<Fact>)
    ensures Passes(EventFilters(c), row) <==> EventFound(c, row)
  {
    var fs := EventFilters(c);
    assert fs == [fs[0], fs[1], fs[2]] + ([fs[3], fs[4], fs[5]] + ([fs[6], fs[7], fs[8]] + []));
    hide Passes;
    PassesThree(fs[6], fs[7], fs[8], [], row);
    PassesThree(fs[3], fs[4], fs[5], [fs[6], fs[7], fs[8]] + [], row);
    PassesThree(fs[0], fs[1], fs[2], [fs[3], fs[4], fs[5]] + ([fs[6], fs[7], fs[8]] + []), row);
    NoFilters(0, [], row);
  }

  /** The event search: the page size and offset are bound after the filters, at the numbers returned. */
  method SearchEventsQuery(c: Criteria, pageSize: string, offset: string)
    returns (where: string, limitParam: nat, offsetParam: nat, args: seq<string>)
    ensures Means(where, args, EventFilters(c))
    ensures forall row :: Eval(where, args, row) == Some(EventFound(c, row))
    ensures 1 <= limitParam < offsetParam == |args|
    ensures args[limitParam - 1] == pageSize && args[offsetParam - 1] == offset
    ensures args[..limitParam - 1] == ArgsOf(EventFilters(c))
  {
    hide ArgsOf, Where, Builder.Valid, Eval, EventFound, EventFilters;
    var qb := EventSearchBuilder(c);
    limitParam := qb.NextParam();
    offsetParam := limitParam + 1;
    where := qb.WhereClause();
    args := [];
    args := args + qb.args;
    args := args + [pageSize, offset];

    EventFiltersPlain(c);
    MeansOwnFilters(1, [], EventFilters(c), [pageSize, offset]);
    assert [] + ArgsOf(EventFilters(c)) + [pageSize, offset] == args;
    forall row ensures Eval(where, args, row) == Some(EventFound(c, row)) {
      EventFiltersMean(c, row);
    }
  }

  lemma EventFiltersPlain(c: Criteria)
    ensures PlainColumns(EventFilters(c))
  {
    assert ' ' !in "e.date" && ' ' !in "e.type" && ' ' !in "e.org" && ' ' !in "e.repo";
    assert ' ' !in "e.username" && ' ' !in "e.mentions" && ' ' !in "e.labels" && ' ' !in "d.entity";
  }
}
