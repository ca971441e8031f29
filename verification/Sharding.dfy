// Work list construction and sharding of the import worker.
module Sharding {
  import opened Lexical
  import opened Packing

  datatype TenantRef = TenantRef(tenantRepoID: string, tenantID: string, plan: string)

  datatype ImportWorkRow = ImportWorkRow(
    tenantRepoID: string, tenantID: string, org: string, repo: string, plan: string, eventCount: int)

  datatype RepoWork = RepoWork(org: string, repo: string, weight: int, tenants: seq<TenantRef>)

  function RefOf(r: ImportWorkRow): TenantRef {
    TenantRef(r.tenantRepoID, r.tenantID, r.plan)
  }

  /** The map key under which rows are grouped. */
  function Key(org: string, repo: string): string {
    org + "/" + repo
  }

  // ---- BuildWorkList ----

  /** Index of the item with this key, or the length when there is none. */
  function Find(list: seq<RepoWork>, key: string): (i: nat)
    ensures i <= |list|
    ensures i < |list| ==> Key(list[i].org, list[i].repo) == key
    ensures forall j :: 0 <= j < i ==> Key(list[j].org, list[j].repo) != key
  {
    if list == [] then 0
    else if Key(list[0].org, list[0].repo) == key then 0
    else 1 + Find(list[1..], key)
  }

  function AddRow(list: seq<RepoWork>, r: ImportWorkRow): seq<RepoWork> {
    var i := Find(list, Key(r.org, r.repo));
    if i < |list| then list[i := list[i].(tenants := list[i].tenants + [RefOf(r)])]
    else list + [RepoWork(r.org, r.repo, r.eventCount, [RefOf(r)])]
  }

  function WorkList(rows: seq<ImportWorkRow>): seq<RepoWork> {
    if rows == [] then [] else AddRow(WorkList(rows[..|rows| - 1]), rows[|rows| - 1])
  }

  ghost predicate IndexesList(idx: map<string, nat>, list: seq<RepoWork>) {
    && (forall k :: k in idx ==> idx[k] < |list| && Key(list[idx[k]].org, list[idx[k]].repo) == k)
    && (forall i :: 0 <= i < |list| ==>
          Key(list[i].org, list[i].repo) in idx && idx[Key(list[i].org, list[i].repo)] == i)
  }

  method BuildWorkList(rows: seq<ImportWorkRow>) returns (result: seq<RepoWork>)
    ensures result == WorkList(rows)
  {
    result := [];
    var idx: map<string, nat> := map[];
    for n := 0 to |rows|
      invariant result == WorkList(rows[..n])
      invariant IndexesList(idx, result)
    {
      var r := rows[n];
      assert rows[..n + 1][..n] == rows[..n];
      var key := Key(r.org, r.repo);
      if key in idx {
        var i := idx[key];
        assert Find(result, key) == i;
        result := result[i := result[i].(tenants := result[i].tenants + [RefOf(r)])];
      } else {
        assert Find(result, key) == |result|;
        idx := idx[key := |result|];
        result := result + [RepoWork(r.org, r.repo, r.eventCount, [RefOf(r)])];
      }
    }
    assert rows[..|rows|] == rows;
  }

  /** The refs of the rows of one repo, in row order. */
  function RefsOf(rows: seq<ImportWorkRow>, org: string, repo: string): seq<TenantRef> {
    if rows == [] then []
    else
      var n := |rows| - 1;
      RefsOf(rows[..n], org, repo) +
      (if rows[n].org == org && rows[n].repo == repo then [RefOf(rows[n])] else [])
  }

  ghost predicate Mentions(rows: seq<ImportWorkRow>, org: string, repo: string) {
    exists i :: 0 <= i < |rows| && rows[i].org == org && rows[i].repo == repo
  }

  /** Event count of the first row of a repo. */
  function FirstCount(rows: seq<ImportWorkRow>, org: string, repo: string): int
    requires Mentions(rows, org, repo)
  {
    if rows[0].org == org && rows[0].repo == repo then rows[0].eventCount
    else
      assert forall i :: 0 < i < |rows| ==> rows[i] == rows[1..][i - 1];
      FirstCount(rows[1..], org, repo)
  }

  /** No item is listed twice: names differ between positions. */
  ghost predicate DistinctNames(list: seq<RepoWork>) {
    forall i, j :: 0 <= i < j < |list| ==> list[i].org != list[j].org || list[i].repo != list[j].repo
  }

  /** list holds each repo of rows once, with all its refs and its first count. */
  ghost predicate Groups(list: seq<RepoWork>, rows: seq<ImportWorkRow>) {
    && DistinctNames(list)
    && (forall i :: 0 <= i < |list| ==>
          && Mentions(rows, list[i].org, list[i].repo)
          && list[i].weight == FirstCount(rows, list[i].org, list[i].repo)
          && list[i].tenants == RefsOf(rows, list[i].org, list[i].repo))
    && (forall k :: 0 <= k < |rows| ==> Lists(list, rows[k].org, rows[k].repo))
  }

  ghost predicate Lists(list: seq<RepoWork>, org: string, repo: string) {
    exists i :: 0 <= i < |list| && list[i].org == org && list[i].repo == repo
  }

  /** Rows of different repos have different keys. */
  ghost predicate KeysTellReposApart(rows: seq<ImportWorkRow>) {
    forall i, j :: 0 <= i < j < |rows| && Key(rows[i].org, rows[i].repo) == Key(rows[j].org, rows[j].repo) ==>
      rows[i].org == rows[j].org && rows[i].repo == rows[j].repo
  }

  ghost predicate DistinctKeys(list: seq<RepoWork>) {
    forall i, j :: 0 <= i < j < |list| ==> Key(list[i].org, list[i].repo) != Key(list[j].org, list[j].repo)
  }

  lemma {:induction false} WorkListDistinctKeys(rows: seq<ImportWorkRow>)
    ensures DistinctKeys(WorkList(rows))
  {
    if rows != [] {
      WorkListDistinctKeys(rows[..|rows| - 1]);
    }
  }

  lemma {:induction false} FirstCountExtends(rows: seq<ImportWorkRow>, r: ImportWorkRow, org: string, repo: string)
    requires Mentions(rows + [r], org, repo)
    ensures FirstCount(rows + [r], org, repo) ==
            if Mentions(rows, org, repo) then FirstCount(rows, org, repo) else r.eventCount
  {
    if rows != [] && !(rows[0].org == org && rows[0].repo == repo) {
      assert (rows + [r])[1..] == rows[1..] + [r];
      assert forall i :: 0 < i < |rows| ==> rows[i] == rows[1..][i - 1];
      assert forall i :: 0 < i < |rows + [r]| ==> (rows + [r])[i] == (rows[1..] + [r])[i - 1];
      FirstCountExtends(rows[1..], r, org, repo);
      assert Mentions(rows, org, repo) <==> Mentions(rows[1..], org, repo);
    }
  }

  lemma {:induction false} NoRefsUnlessMentioned(rows: seq<ImportWorkRow>, org: string, repo: string)
    requires !Mentions(rows, org, repo)
    ensures RefsOf(rows, org, repo) == []
  {
    if rows != [] {
      NoRefsUnlessMentioned(rows[..|rows| - 1], org, repo);
    }
  }

  lemma MentionsExtends(rows: seq<ImportWorkRow>, r: ImportWorkRow, org: string, repo: string)
    ensures Mentions(rows + [r], org, repo) <==> Mentions(rows, org, repo) || (r.org == org && r.repo == repo)
  {
    if Mentions(rows, org, repo) {
      var i :| 0 <= i < |rows| && rows[i].org == org && rows[i].repo == repo;
      assert (rows + [r])[i] == rows[i];
    }
    assert (rows + [r])[|rows|] == r;
  }

  /** What one more row adds to the group of a repo. */
  lemma GroupGrows(rows: seq<ImportWorkRow>, r: ImportWorkRow, org: string, repo: string)
    ensures Mentions(rows + [r], org, repo) <==> Mentions(rows, org, repo) || (r.org == org && r.repo == repo)
    ensures Mentions(rows + [r], org, repo) ==>
              FirstCount(rows + [r], org, repo)
              == (if Mentions(rows, org, repo) then FirstCount(rows, org, repo) else r.eventCount)
    ensures RefsOf(rows + [r], org, repo)
            == RefsOf(rows, org, repo) + (if r.org == org && r.repo == repo then [RefOf(r)] else [])
  {
    MentionsExtends(rows, r, org, repo);
    if Mentions(rows + [r], org, repo) {
      FirstCountExtends(rows, r, org, repo);
    }
    assert (rows + [r])[..|rows|] == rows;
  }

  lemma AddRowGroups(list: seq<RepoWork>, rows: seq<ImportWorkRow>, r: ImportWorkRow)
    requires Groups(list, rows) && KeysTellReposApart(rows + [r])
    ensures Groups(AddRow(list, r), rows + [r])
  {
    hide Key, RefsOf, FirstCount, Mentions, KeysTellReposApart, Lists;
    var key := Key(r.org, r.repo);
    var i := Find(list, key);
    var list' := AddRow(list, r);
    assert (rows + [r])[..|rows|] == rows;
    if i < |list| {
      SameKeySameRepo(list[i], rows, r);
      assert list'[i].org == r.org && list'[i].repo == r.repo;
    } else {
      UnlistedUnmentioned(list, rows, r.org, r.repo);
      NoRefsUnlessMentioned(rows, r.org, r.repo);
      assert list'[|list|].org == r.org && list'[|list|].repo == r.repo;
    }
    forall j | 0 <= j < |list'|
      ensures Mentions(rows + [r], list'[j].org, list'[j].repo)
      ensures list'[j].weight == FirstCount(rows + [r], list'[j].org, list'[j].repo)
      ensures list'[j].tenants == RefsOf(rows + [r], list'[j].org, list'[j].repo)
    {
      GroupGrows(rows, r, list'[j].org, list'[j].repo);
    }
    AddRowLists(list, list', rows, r, if i < |list| then i else |list|);
  }

  lemma AddRowLists(list: seq<RepoWork>, list': seq<RepoWork>, rows: seq<ImportWorkRow>, r: ImportWorkRow, i: nat)
    requires |list| <= |list'| && forall j :: 0 <= j < |list| ==> list'[j].org == list[j].org && list'[j].repo == list[j].repo
    requires i < |list'| && list'[i].org == r.org && list'[i].repo == r.repo
    requires forall k :: 0 <= k < |rows| ==> Lists(list, rows[k].org, rows[k].repo)
    ensures forall k :: 0 <= k < |rows + [r]| ==> Lists(list', (rows + [r])[k].org, (rows + [r])[k].repo)
  {
    forall k | 0 <= k < |rows + [r]|
      ensures Lists(list', (rows + [r])[k].org, (rows + [r])[k].repo)
    {
      if k < |rows| {
        var j :| 0 <= j < |list| && list[j].org == rows[k].org && list[j].repo == rows[k].repo;
        assert list'[j].org == rows[k].org && list'[j].repo == rows[k].repo;
      } else {
        assert (rows + [r])[k] == r;
      }
    }
  }

  lemma UnlistedUnmentioned(list: seq<RepoWork>, rows: seq<ImportWorkRow>, org: string, repo: string)
    requires Groups(list, rows) && Find(list, Key(org, repo)) == |list|
    ensures !Mentions(rows, org, repo)
  {
    forall k | 0 <= k < |rows|
      ensures !(rows[k].org == org && rows[k].repo == repo)
    {
      assert Lists(list, rows[k].org, rows[k].repo);
    }
  }

  lemma SameKeySameRepo(w: RepoWork, rows: seq<ImportWorkRow>, r: ImportWorkRow)
    requires Mentions(rows, w.org, w.repo) && KeysTellReposApart(rows + [r])
    requires Key(w.org, w.repo) == Key(r.org, r.repo)
    ensures w.org == r.org && w.repo == r.repo
  {
    var k :| 0 <= k < |rows| && rows[k].org == w.org && rows[k].repo == w.repo;
    assert (rows + [r])[k] == rows[k] && (rows + [r])[|rows|] == r;
  }

  lemma {:induction false} WorkListGroups(rows: seq<ImportWorkRow>)
    requires KeysTellReposApart(rows)
    ensures Groups(WorkList(rows), rows)
  {
    if rows != [] {
      var n := |rows| - 1;
      assert rows[..n] + [rows[n]] == rows;
      WorkListGroups(rows[..n]);
      AddRowGroups(WorkList(rows[..n]), rows[..n], rows[n]);
    }
  }

  /** Every repo of the rows is listed once with all its refs exactly when keys tell repos apart. */
  lemma WorkListGroupsIff(rows: seq<ImportWorkRow>)
    ensures Groups(WorkList(rows), rows) <==> KeysTellReposApart(rows)
  {
    if KeysTellReposApart(rows) {
      WorkListGroups(rows);
    }
    if Groups(WorkList(rows), rows) {
      var list := WorkList(rows);
      WorkListDistinctKeys(rows);
      forall i, j | 0 <= i < j < |rows| && Key(rows[i].org, rows[i].repo) == Key(rows[j].org, rows[j].repo)
        ensures rows[i].org == rows[j].org && rows[i].repo == rows[j].repo
      {
        assert Lists(list, rows[i].org, rows[i].repo) && Lists(list, rows[j].org, rows[j].repo);
        var a :| 0 <= a < |list| && list[a].org == rows[i].org && list[a].repo == rows[i].repo;
        var b :| 0 <= b < |list| && list[b].org == rows[j].org && list[b].repo == rows[j].repo;
        assert a == b;
      }
    }
  }

  lemma {:induction false} KeyInjective(org: string, repo: string, org': string, repo': string)
    requires '/' !in org && '/' !in org' && Key(org, repo) == Key(org', repo')
    ensures org == org' && repo == repo'
  {
    assert org != [] ==> Key(org, repo)[0] == org[0] && org[0] in org;
    assert org' != [] ==> Key(org', repo')[0] == org'[0] && org'[0] in org';
    assert org == [] ==> Key(org, repo)[0] == '/';
    assert org' == [] ==> Key(org', repo')[0] == '/';
    assert Key(org, repo)[1..] == if org == [] then repo else Key(org[1..], repo);
    assert Key(org', repo')[1..] == if org' == [] then repo' else Key(org'[1..], repo');
    if org != [] {
      KeyInjective(org[1..], repo, org'[1..], repo');
      assert org == [org[0]] + org[1..] && org' == [org'[0]] + org'[1..];
    }
  }

  lemma SlashFreeOrgsTellApart(rows: seq<ImportWorkRow>)
    requires forall i :: 0 <= i < |rows| ==> '/' !in rows[i].org
    ensures KeysTellReposApart(rows)
  {
    forall i, j | 0 <= i < j < |rows| && Key(rows[i].org, rows[i].repo) == Key(rows[j].org, rows[j].repo)
      ensures rows[i].org == rows[j].org && rows[i].repo == rows[j].repo
    {
      KeyInjective(rows[i].org, rows[i].repo, rows[j].org, rows[j].repo);
    }
  }

  /** With '/' in an org two repos can share a key, and one loses its item. */
  lemma SlashInOrgMergesRepos(rows: seq<ImportWorkRow>)
    requires rows == [ImportWorkRow("1", "t", "a/b", "c", "p", 1), ImportWorkRow("2", "t", "a", "b/c", "p", 1)]
    ensures !KeysTellReposApart(rows) && !Groups(WorkList(rows), rows)
  {
    assert Key("a/b", "c") == "a/b/c" == Key("a", "b/c");
    assert Key(rows[0].org, rows[0].repo) == Key(rows[1].org, rows[1].repo);
    assert |rows[0].org| != |rows[1].org|;
    WorkListGroupsIff(rows);
  }

  // ---- The order heaviest first ----

  /** The comparison given to the stable sort. */
  predicate Less(a: RepoWork, b: RepoWork) {
    if a.weight != b.weight then a.weight > b.weight
    else if ToLower(a.repo) != ToLower(b.repo) then Compare(ToLower(a.repo), ToLower(b.repo)) < 0
    else Compare(ToLower(a.org), ToLower(b.org)) < 0
  }

  lemma NotLessTransitive(a: RepoWork, b: RepoWork, c: RepoWork)
    requires !Less(b, a) && !Less(c, b)
    ensures !Less(c, a)
  {
    CompareFlips(ToLower(a.repo), ToLower(b.repo));
    CompareFlips(ToLower(b.repo), ToLower(c.repo));
    CompareFlips(ToLower(a.repo), ToLower(c.repo));
    CompareFlips(ToLower(a.org), ToLower(b.org));
    CompareFlips(ToLower(b.org), ToLower(c.org));
    CompareFlips(ToLower(a.org), ToLower(c.org));
    if Compare(ToLower(a.repo), ToLower(b.repo)) <= 0 && Compare(ToLower(b.repo), ToLower(c.repo)) <= 0 {
      CompareTransitive(ToLower(a.repo), ToLower(b.repo), ToLower(c.repo));
    }
    if Compare(ToLower(a.org), ToLower(b.org)) <= 0 && Compare(ToLower(b.org), ToLower(c.org)) <= 0 {
      CompareTransitive(ToLower(a.org), ToLower(b.org), ToLower(c.org));
    }
  }

  lemma LessAsymmetric(a: RepoWork, b: RepoWork)
    requires Less(a, b)
    ensures !Less(b, a)
  {
    CompareFlips(ToLower(a.repo), ToLower(b.repo));
    CompareFlips(ToLower(a.org), ToLower(b.org));
  }

  ghost predicate Ordered(s: seq<RepoWork>) {
    forall i, j :: 0 <= i < j < |s| ==> !Less(s[j], s[i])
  }

  /** x goes in behind everything it is not less than. */
  function Insert(s: seq<RepoWork>, x: RepoWork): seq<RepoWork> {
    if s == [] then [x]
    else
      var n := |s| - 1;
      if Less(x, s[n]) then Insert(s[..n], x) + [s[n]] else s + [x]
  }

  function StableSorted(s: seq<RepoWork>): seq<RepoWork> {
    if s == [] then [] else Insert(StableSorted(s[..|s| - 1]), s[|s| - 1])
  }

  lemma {:induction false} InsertKeeps(s: seq<RepoWork>, x: RepoWork)
    ensures |Insert(s, x)| == |s| + 1
    ensures multiset(Insert(s, x)) == multiset(s) + multiset{x}
  {
    if s != [] {
      var n := |s| - 1;
      assert s == s[..n] + [s[n]];
      InsertKeeps(s[..n], x);
    }
  }

  lemma {:induction false} InsertOrdered(s: seq<RepoWork>, x: RepoWork)
    requires Ordered(s)
    ensures Ordered(Insert(s, x))
  {
    if s != [] {
      var n := |s| - 1;
      if Less(x, s[n]) {
        InsertOrdered(s[..n], x);
        InsertKeeps(s[..n], x);
        LessAsymmetric(x, s[n]);
        var r := Insert(s[..n], x);
        forall i | 0 <= i < |r|
          ensures !Less(s[n], r[i])
        {
          assert r[i] in multiset(r);
          assert r[i] == x || r[i] in s[..n];
        }
      } else {
        forall i | 0 <= i < n
          ensures !Less(x, s[i])
        {
          NotLessTransitive(s[i], s[n], x);
        }
      }
    }
  }

  lemma {:induction false} SortedOrdered(s: seq<RepoWork>)
    ensures Ordered(StableSorted(s)) && multiset(StableSorted(s)) == multiset(s)
    ensures |StableSorted(s)| == |s|
  {
    if s != [] {
      var n := |s| - 1;
      assert s == s[..n] + [s[n]];
      SortedOrdered(s[..n]);
      InsertOrdered(StableSorted(s[..n]), s[n]);
      InsertKeeps(StableSorted(s[..n]), s[n]);
    }
  }

  lemma {:induction false} InsertAt(s: seq<RepoWork>, x: RepoWork, j: nat)
    requires j <= |s| && (forall k :: j <= k < |s| ==> Less(x, s[k])) && (j > 0 ==> !Less(x, s[j - 1]))
    ensures Insert(s, x) == s[..j] + [x] + s[j..]
  {
    if j < |s| {
      var n := |s| - 1;
      InsertAt(s[..n], x, j);
      assert s[..n][..j] == s[..j] && s[..n][j..] + [s[n]] == s[j..];
    }
  }

  /** Moves a[i] left past everything it is less than. */
  method InsertInPlace(a: array<RepoWork>, i: nat)
    requires i < a.Length
    modifies a
    ensures a[..i + 1] == Insert(old(a[..i]), old(a[i]))
    ensures a[i + 1..] == old(a[i + 1..])
  {
    var x := a[i];
    ghost var done := a[..i];
    var j := i;
    while j > 0 && Less(x, a[j - 1])
      invariant 0 <= j <= i
      invariant a[..j] == done[..j] && a[j + 1..i + 1] == done[j..]
      invariant forall k :: j <= k < i ==> Less(x, done[k])
      invariant a[i + 1..] == old(a[i + 1..])
    {
      ghost var moved := a[j + 1..i + 1];
      a[j] := a[j - 1];
      j := j - 1;
      assert a[j + 1] == done[j] && a[j + 2..i + 1] == moved;
      assert a[j + 1..i + 1] == [done[j]] + done[j + 1..];
    }
    a[j] := x;
    InsertAt(done, x, j);
    assert a[..i + 1] == a[..j] + [x] + a[j + 1..i + 1];
  }

  /** sort.SliceStable on the copied slice. */
  method StableSort(a: array<RepoWork>)
    modifies a
    ensures a[..] == StableSorted(old(a[..]))
  {
    ghost var s := a[..];
    for i := 0 to a.Length
      invariant a[..i] == StableSorted(s[..i])
      invariant a[i..] == s[i..]
    {
      assert s[..i + 1][..i] == s[..i] && a[i] == a[i..][0] == s[i..][0];
      assert a[i + 1..] == a[i..][1..] && s[i + 1..] == s[i..][1..];
      InsertInPlace(a, i);
    }
    assert a[..a.Length] == a[..] && s[..a.Length] == s;
  }

  /** Among items that tie, the sort keeps the input's order. */
  lemma {:induction false} SortStable(s: seq<RepoWork>, x: RepoWork)
    ensures TiedWith(StableSorted(s), x) == TiedWith(s, x)
  {
    if s != [] {
      var n := |s| - 1;
      SortStable(s[..n], x);
      SortedOrdered(s[..n]);
      InsertStable(StableSorted(s[..n]), s[n], x);
    }
  }

  function TiedWith(s: seq<RepoWork>, x: RepoWork): seq<RepoWork> {
    if s == [] then []
    else
      var n := |s| - 1;
      TiedWith(s[..n], x) + (if !Less(s[n], x) && !Less(x, s[n]) then [s[n]] else [])
  }

  lemma TiedNext(s: seq<RepoWork>, y: RepoWork, x: RepoWork)
    ensures TiedWith(s + [y], x) == TiedWith(s, x) + TiedWith([y], x)
  {
    assert (s + [y])[..|s|] == s && [y][..0] == [];
  }

  lemma NotBothTied(y: RepoWork, z: RepoWork, x: RepoWork)
    requires Less(y, z)
    ensures TiedWith([y], x) == [] || TiedWith([z], x) == []
  {
    if !Less(z, x) && !Less(x, z) && !Less(y, x) && !Less(x, y) {
      NotLessTransitive(z, x, y);
    }
  }

  lemma OneIsEmpty<T>(a: seq<T>, b: seq<T>, c: seq<T>)
    requires b == [] || c == []
    ensures a + b + c == a + c + b
  {
  }

  lemma {:induction false} InsertStable(s: seq<RepoWork>, y: RepoWork, x: RepoWork)
    ensures TiedWith(Insert(s, y), x) == TiedWith(s, x) + TiedWith([y], x)
  {
    hide TiedWith, Less;
    if s == [] {
      assert [] + [y] == [y];
      TiedNext([], y, x);
    } else {
      var pre, z := s[..|s| - 1], s[|s| - 1];
      assert s == pre + [z];
      if Less(y, z) {
        InsertStable(pre, y, x);
        TiedNext(Insert(pre, y), z, x);
        TiedNext(pre, z, x);
        NotBothTied(y, z, x);
        OneIsEmpty(TiedWith(pre, x), TiedWith([y], x), TiedWith([z], x));
      } else {
        TiedNext(s, y, x);
      }
    }
  }

  // ---- The input's order ----

  predicate Tied(a: RepoWork, b: RepoWork) {
    !Less(a, b) && !Less(b, a)
  }

  /** Items tie exactly when neither weight nor lower-cased names tell them apart. */
  lemma TiedIff(a: RepoWork, b: RepoWork)
    ensures Tied(a, b) <==> a.weight == b.weight && ToLower(a.repo) == ToLower(b.repo) && ToLower(a.org) == ToLower(b.org)
  {
    CompareFlips(ToLower(a.repo), ToLower(b.repo));
    CompareFlips(ToLower(a.org), ToLower(b.org));
  }

  ghost predicate TiesAreEqual(s: seq<RepoWork>) {
    forall x, y :: x in s && y in s && Tied(x, y) ==> x == y
  }

  lemma FirstOfSorted(a: seq<RepoWork>, b: seq<RepoWork>)
    requires Ordered(a) && Ordered(b) && multiset(a) == multiset(b) && a != [] && b != [] && TiesAreEqual(a)
    ensures a[0] == b[0]
  {
    assert a[0] in multiset(a) && b[0] in multiset(b);
    assert a[0] in b && b[0] in a;
    var i :| 0 <= i < |a| && a[i] == b[0];
    var j :| 0 <= j < |b| && b[j] == a[0];
    LessIrreflexive(a[0]);
    assert Tied(a[0], b[0]);
  }

  lemma LessIrreflexive(a: RepoWork)
    ensures !Less(a, a)
  {
  }

  lemma {:induction false} SortedUnique(a: seq<RepoWork>, b: seq<RepoWork>)
    requires Ordered(a) && Ordered(b) && multiset(a) == multiset(b) && TiesAreEqual(a)
    ensures a == b
  {
    hide Less, Tied;
    assert |multiset(a)| == |a| && |multiset(b)| == |b|;
    if a != [] {
      FirstOfSorted(a, b);
      assert a == [a[0]] + a[1..] && b == [b[0]] + b[1..];
      assert multiset(a[1..]) == multiset(a) - multiset{a[0]};
      assert multiset(b[1..]) == multiset(b) - multiset{b[0]};
      assert forall x :: x in a[1..] ==> x in a;
      SortedUnique(a[1..], b[1..]);
    }
  }

  lemma {:induction false} TiedWithAppend(a: seq<RepoWork>, b: seq<RepoWork>, x: RepoWork)
    ensures TiedWith(a + b, x) == TiedWith(a, x) + TiedWith(b, x)
  {
    hide Less;
    if b == [] {
      assert a + b == a;
    } else {
      assert (a + b)[..|a + b| - 1] == a + b[..|b| - 1];
      TiedWithAppend(a, b[..|b| - 1], x);
    }
  }

  lemma TiedWithParts(a: seq<RepoWork>, x: RepoWork, b: seq<RepoWork>, z: RepoWork)
    requires Tied(x, z)
    ensures |TiedWith(a + [x] + b, z)| > |TiedWith(a, z)| && TiedWith(a + [x] + b, z)[|TiedWith(a, z)|] == x
  {
    TiedWithAppend(a + [x], b, z);
    TiedWithAppend(a, [x], z);
    assert [x][..0] == [] && TiedWith([x], z) == [x];
  }

  /** Two items that tie and differ: swapped in the input, they are swapped in the order. */
  lemma SwapShows(s: seq<RepoWork>, i: nat, j: nat) returns (s': seq<RepoWork>)
    requires i < j < |s| && Tied(s[i], s[j]) && s[i] != s[j]
    ensures multiset(s') == multiset(s) && StableSorted(s') != StableSorted(s)
  {
    var a, b, c := s[..i], s[i + 1..j], s[j + 1..];
    var x, y := s[i], s[j];
    assert s == a + [x] + (b + [y] + c);
    s' := a + [y] + (b + [x] + c);
    assert multiset(s') == multiset(s);
    LessIrreflexive(x);
    TiedWithParts(a, x, b + [y] + c, x);
    TiedWithParts(a, y, b + [x] + c, x);
    SortStable(s, x);
    SortStable(s', x);
  }

  ghost predicate OrderFree(repos: seq<RepoWork>) {
    forall repos', taskCount, taskIndex :: multiset(repos') == multiset(repos) ==>
      Shard(repos', taskCount, taskIndex) == Shard(repos, taskCount, taskIndex)
  }

  lemma {:induction false} OneTaskTakesAll(s: seq<RepoWork>)
    ensures Select(s, Greedy(Effective(s), 1), 0) == s
  {
    if s != [] {
      var n := |s| - 1;
      OneTaskTakesAll(s[..n]);
      GreedySplit(Effective(s), 1);
      assert Effective(s)[..n] == Effective(s[..n]);
    }
  }

  /** The shards depend on the bag of repos alone exactly when repos that tie are equal. */
  lemma OrderFreeIff(repos: seq<RepoWork>)
    ensures OrderFree(repos) <==> TiesAreEqual(repos)
  {
    if TiesAreEqual(repos) {
      forall repos', taskCount, taskIndex | multiset(repos') == multiset(repos)
        ensures Shard(repos', taskCount, taskIndex) == Shard(repos, taskCount, taskIndex)
      {
        SameBagSameShards(repos, repos', taskCount, taskIndex);
      }
    } else {
      var x, y :| x in repos && y in repos && Tied(x, y) && x != y;
      DifferentTieShows(repos, x, y);
    }
  }

  lemma SameBagSameShards(repos: seq<RepoWork>, repos': seq<RepoWork>, taskCount: int, taskIndex: int)
    requires TiesAreEqual(repos) && multiset(repos') == multiset(repos)
    ensures Shard(repos', taskCount, taskIndex) == Shard(repos, taskCount, taskIndex)
  {
    SortedOrdered(repos);
    SortedOrdered(repos');
    assert forall x :: x in StableSorted(repos) ==> x in multiset(repos);
    SortedUnique(StableSorted(repos), StableSorted(repos'));
    assert |multiset(repos)| == |repos| && |multiset(repos')| == |repos'|;
  }

  lemma DifferentTieShows(repos: seq<RepoWork>, x: RepoWork, y: RepoWork)
    requires x in repos && y in repos && Tied(x, y) && x != y
    ensures !OrderFree(repos)
  {
    var i :| 0 <= i < |repos| && repos[i] == x;
    var j :| 0 <= j < |repos| && repos[j] == y;
    var repos' := SwapShows(repos, if i < j then i else j, if i < j then j else i);
    OneTaskTakesAll(StableSorted(repos));
    OneTaskTakesAll(StableSorted(repos'));
    assert |multiset(repos')| == |repos'|;
    assert Shard(repos', 1, 0) != Shard(repos, 1, 0);
  }

  /** Names that differ in case alone tie: the shard of one task keeps the order in which they came. */
  lemma CaseTwinsDepend(twins: seq<RepoWork>)
    requires twins == [RepoWork("acme", "Web", 5, []), RepoWork("acme", "web", 5, [])]
    ensures !OrderFree(twins)
  {
    assert ToLower("Web") == "web" == ToLower("web");
    assert "Web"[0] != "web"[0];
    TiedIff(twins[0], twins[1]);
    DifferentTieShows(twins, twins[0], twins[1]);
  }

  // ---- ShardRepos ----

  /** The weight a repo counts for when it is placed: at least 1. */
  function EffectiveWeight(w: RepoWork): (e: nat)
    ensures e >= 1 && e >= w.weight && (e == 1 || e == w.weight)
  {
    if w.weight > 1 then w.weight else 1
  }

  function Effective(s: seq<RepoWork>): (p: seq<nat>)
    ensures |p| == |s| && forall i :: 0 <= i < |s| ==> p[i] == EffectiveWeight(s[i])
  {
    if s == [] then [] else Effective(s[..|s| - 1]) + [EffectiveWeight(s[|s| - 1])]
  }

  function Select(s: seq<RepoWork>, a: seq<nat>, t: int): seq<RepoWork>
    requires |a| == |s|
  {
    if s == [] then []
    else
      var n := |s| - 1;
      Select(s[..n], a[..n], t) + (if a[n] == t then [s[n]] else [])
  }

  function Shard(repos: seq<RepoWork>, taskCount: int, taskIndex: int): seq<RepoWork> {
    if repos == [] || taskCount < 1 then []
    else
      var s := StableSorted(repos);
      SortedOrdered(repos);
      Select(s, Greedy(Effective(s), taskCount), taskIndex)
  }

  method ShardRepos(repos: seq<RepoWork>, taskCount: int, taskIndex: int) returns (shard: seq<RepoWork>)
    ensures shard == Shard(repos, taskCount, taskIndex)
  {
    if |repos| == 0 || taskCount < 1 {
      return [];
    }
    var sorted := new RepoWork[|repos|](i requires 0 <= i < |repos| => repos[i]);
    assert sorted[..] == repos;
    StableSort(sorted);
    var s := sorted[..];
    SortedOrdered(repos);
    var assignments := AssignTasks(s, taskCount);
    shard := SelectTask(s, assignments, taskIndex);
  }

  method SelectTask(s: seq<RepoWork>, assignments: seq<nat>, taskIndex: int) returns (shard: seq<RepoWork>)
    requires |assignments| == |s|
    ensures shard == Select(s, assignments, taskIndex)
  {
    shard := [];
    for i := 0 to |s|
      invariant shard == Select(s[..i], assignments[..i], taskIndex)
    {
      assert s[..i + 1] == s[..i] + [s[i]] && assignments[..i + 1] == assignments[..i] + [assignments[i]];
      SelectNext(s[..i], assignments[..i], s[i], assignments[i], taskIndex);
      if assignments[i] == taskIndex {
        shard := shard + [s[i]];
      }
    }
    assert s[..|s|] == s && assignments[..|s|] == assignments;
  }

  method LeastLoaded(taskWeights: array<nat>) returns (minTask: nat)
    requires taskWeights.Length >= 1
    ensures minTask == ArgMin(taskWeights[..])
  {
    minTask := 0;
    for t := 1 to taskWeights.Length
      invariant minTask < t
      invariant forall u :: 0 <= u < t ==> taskWeights[minTask] <= taskWeights[u]
      invariant forall u :: 0 <= u < minTask ==> taskWeights[minTask] < taskWeights[u]
    {
      if taskWeights[t] < taskWeights[minTask] {
        minTask := t;
      }
    }
    ghost var loads := taskWeights[..];
    assert loads[ArgMin(loads)] <= loads[minTask];
  }

  method Place(taskWeights: array<nat>, w: nat) returns (minTask: nat)
    requires taskWeights.Length >= 1
    modifies taskWeights
    ensures minTask == ArgMin(old(taskWeights[..]))
    ensures taskWeights[..] == old(taskWeights[..])[minTask := old(taskWeights[..])[minTask] + w]
  {
    minTask := LeastLoaded(taskWeights);
    taskWeights[minTask] := taskWeights[minTask] + w;
  }

  lemma LoadsNext(p: seq<nat>, m: nat, x: nat, a: seq<nat>, t: nat)
    requires |a| == |p| && t < m
    ensures Loads(p + [x], a + [t], m) == Loads(p, a, m)[t := Loads(p, a, m)[t] + x]
  {
    forall u: nat | u < m
      ensures Loads(p + [x], a + [t], m)[u] == Loads(p, a, m)[u] + (if u == t then x else 0)
    {
      LoadAdds(p, x, a, t, u);
    }
  }

  lemma GreedyNext(p: seq<nat>, m: nat, x: nat, a: seq<nat>, loads: seq<nat>, t: nat)
    requires m >= 1 && a == Greedy(p, m) && loads == Loads(p, a, m) && t == ArgMin(loads)
    ensures Greedy(p + [x], m) == a + [t]
    ensures Loads(p + [x], a + [t], m) == loads[t := loads[t] + x]
  {
    assert (p + [x])[..|p|] == p;
    LoadsNext(p, m, x, a, t);
  }

  /** The first i repos are placed: both slices hold what greedy packing gives. */
  ghost predicate Placed(p: seq<nat>, i: nat, m: nat, taskWeights: array<nat>, assignments: array<nat>)
    requires m >= 1
    reads taskWeights, assignments
  {
    && i <= |p| == assignments.Length
    && assignments[..i] == Greedy(p[..i], m)
    && taskWeights[..] == Loads(p[..i], assignments[..i], m)
  }

  /** Puts the next repo on the least loaded task. */
  method PlaceNext(ghost p: seq<nat>, i: nat, m: nat, w: nat, taskWeights: array<nat>, assignments: array<nat>)
    requires m >= 1 && taskWeights != assignments
    requires i < |p| && w == p[i] && Placed(p, i, m, taskWeights, assignments)
    modifies taskWeights, assignments
    ensures Placed(p, i + 1, m, taskWeights, assignments)
  {
    hide Greedy, Loads, ArgMin;
    ghost var a := assignments[..i];
    ghost var loads := taskWeights[..];
    var minTask := Place(taskWeights, w);
    assignments[i] := minTask;
    assert assignments[..i + 1] == a + [minTask];
    assert p[..i + 1] == p[..i] + [w];
    GreedyNext(p[..i], m, w, a, loads, minTask);
  }

  /** The greedy loop: task weights and assignments grow repo by repo. */
  method AssignTasks(s: seq<RepoWork>, taskCount: int) returns (tasks: seq<nat>)
    requires taskCount >= 1
    ensures tasks == Greedy(Effective(s), taskCount)
  {
    var taskWeights := new nat[taskCount](_ => 0);
    var assignments := new nat[|s|](_ => 0);
    ghost var p := Effective(s);
    assert taskWeights[..] == Loads(p[..0], assignments[..0], taskCount);
    for i := 0 to |s|
      invariant Placed(p, i, taskCount, taskWeights, assignments)
    {
      PlaceNext(p, i, taskCount, EffectiveWeight(s[i]), taskWeights, assignments);
    }
    tasks := assignments[..];
    assert p[..|s|] == p && assignments[..|s|] == assignments[..];
  }

  // ---- What sharding guarantees ----

  function ShardWeight(shard: seq<RepoWork>): nat {
    if shard == [] then 0 else ShardWeight(shard[..|shard| - 1]) + EffectiveWeight(shard[|shard| - 1])
  }

  /** The items of all shards together, as a bag. */
  function Pool(parts: seq<seq<RepoWork>>): multiset<RepoWork> {
    if parts == [] then multiset{} else Pool(parts[..|parts| - 1]) + multiset(parts[|parts| - 1])
  }

  function AllShards(repos: seq<RepoWork>, taskCount: nat): (parts: seq<seq<RepoWork>>)
    ensures |parts| == taskCount
    ensures forall t :: 0 <= t < taskCount ==> parts[t] == Shard(repos, taskCount, t)
  {
    seq(taskCount, t requires 0 <= t < taskCount => Shard(repos, taskCount, t))
  }

  function Selections(s: seq<RepoWork>, a: seq<nat>, m: nat): (parts: seq<seq<RepoWork>>)
    requires |a| == |s|
    ensures |parts| == m && forall t :: 0 <= t < m ==> parts[t] == Select(s, a, t)
  {
    seq(m, t requires 0 <= t < m => Select(s, a, t))
  }

  lemma {:induction false} CountInSelections(s: seq<RepoWork>, a: seq<nat>, x: RepoWork, u: nat, m: nat, r: RepoWork)
    requires |a| == |s|
    ensures Pool(Selections(s + [x], a + [u], m))[r] ==
            Pool(Selections(s, a, m))[r] + (if u < m && x == r then 1 else 0)
  {
    NoSelections(s, a);
    NoSelections(s + [x], a + [u]);
    hide Pool, Selections, Select;
    if m > 0 {
      CountInSelections(s, a, x, u, m - 1, r);
      PoolGrows(s, a, m, r);
      PoolGrows(s + [x], a + [u], m, r);
      SelectNext(s, a, x, u, m - 1);
      CountNext(Select(s, a, m - 1), x, r);
    }
  }

  lemma NoSelections(s: seq<RepoWork>, a: seq<nat>)
    requires |a| == |s|
    ensures Pool(Selections(s, a, 0)) == multiset{}
  {
  }

  lemma CountNext(part: seq<RepoWork>, x: RepoWork, r: RepoWork)
    ensures multiset(part + [x])[r] == multiset(part)[r] + (if x == r then 1 else 0)
    ensures part + [] == part
  {
  }

  lemma PoolGrows(s: seq<RepoWork>, a: seq<nat>, m: nat, r: RepoWork)
    requires |a| == |s| && m > 0
    ensures Pool(Selections(s, a, m)) == Pool(Selections(s, a, m - 1)) + multiset(Select(s, a, m - 1))
    ensures Pool(Selections(s, a, m))[r] == Pool(Selections(s, a, m - 1))[r] + multiset(Select(s, a, m - 1))[r]
  {
    assert Selections(s, a, m)[..m - 1] == Selections(s, a, m - 1);
  }

  lemma SelectNext(s: seq<RepoWork>, a: seq<nat>, x: RepoWork, u: nat, t: int)
    requires |a| == |s|
    ensures Select(s + [x], a + [u], t) == Select(s, a, t) + (if u == t then [x] else [])
  {
    assert (s + [x])[..|s|] == s && (a + [u])[..|s|] == a;
  }

  lemma {:induction false} EmptyPool(m: nat)
    ensures Pool(Selections([], [], m)) == multiset{}
  {
    if m > 0 {
      EmptyPool(m - 1);
      PoolGrows([], [], m, RepoWork("", "", 0, []));
    }
  }

  lemma {:induction false} SelectionsPool(s: seq<RepoWork>, a: seq<nat>, m: nat)
    requires |a| == |s| && forall i :: 0 <= i < |a| ==> a[i] < m
    ensures Pool(Selections(s, a, m)) == multiset(s)
  {
    if s == [] {
      EmptyPool(m);
      assert a == [];
    } else {
      var n := |s| - 1;
      assert s == s[..n] + [s[n]] && a == a[..n] + [a[n]];
      SelectionsPool(s[..n], a[..n], m);
      forall r
        ensures Pool(Selections(s, a, m))[r] == multiset(s)[r]
      {
        CountInSelections(s[..n], a[..n], s[n], a[n], m, r);
      }
    }
  }

  /** The shards hold every repo and nothing else, each as often as the input. */
  lemma ShardsPartition(repos: seq<RepoWork>, taskCount: nat)
    requires taskCount >= 1
    ensures Pool(AllShards(repos, taskCount)) == multiset(repos)
  {
    if repos == [] {
      EmptyPool(taskCount);
      assert AllShards(repos, taskCount) == Selections([], [], taskCount);
    } else {
      var s := StableSorted(repos);
      SortedOrdered(repos);
      SelectionsPool(s, Greedy(Effective(s), taskCount), taskCount);
      assert AllShards(repos, taskCount) == Selections(s, Greedy(Effective(s), taskCount), taskCount);
    }
  }

  lemma {:induction false} SelectOrdered(s: seq<RepoWork>, a: seq<nat>, t: int)
    requires |a| == |s| && Ordered(s)
    ensures Ordered(Select(s, a, t))
    ensures forall x :: x in Select(s, a, t) ==> x in s
  {
    hide Less;
    if s != [] {
      var n := |s| - 1;
      SelectOrdered(s[..n], a[..n], t);
      var before := Select(s[..n], a[..n], t);
      forall i | 0 <= i < |before| ensures !Less(s[n], before[i]) {
        assert before[i] in s[..n];
      }
    }
  }

  /** Each task imports its repos heaviest first. */
  lemma ShardOrdered(repos: seq<RepoWork>, taskCount: int, taskIndex: int)
    ensures Ordered(Shard(repos, taskCount, taskIndex))
    ensures var shard := Shard(repos, taskCount, taskIndex);
            forall i, j :: 0 <= i < j < |shard| ==> shard[i].weight >= shard[j].weight
  {
    if repos != [] && taskCount >= 1 {
      var s := StableSorted(repos);
      SortedOrdered(repos);
      SelectOrdered(s, Greedy(Effective(s), taskCount), taskIndex);
    }
    var shard := Shard(repos, taskCount, taskIndex);
    hide Shard;
    forall i, j | 0 <= i < j < |shard| ensures shard[i].weight >= shard[j].weight {
      assert !Less(shard[j], shard[i]);
    }
  }

  /** A task index that no task has gets nothing. */
  lemma {:induction false} OutOfRangeShardEmpty(s: seq<RepoWork>, a: seq<nat>, m: nat, t: int)
    requires |a| == |s| && (forall i :: 0 <= i < |a| ==> a[i] < m) && !(0 <= t < m)
    ensures Select(s, a, t) == []
  {
    if s != [] {
      OutOfRangeShardEmpty(s[..|s| - 1], a[..|s| - 1], m, t);
    }
  }

  lemma {:induction false} PoolCount(parts: seq<seq<RepoWork>>, x: RepoWork, t: nat, u: nat)
    requires t < |parts| && u < |parts|
    ensures Pool(parts)[x] >= multiset(parts[t])[x]
    ensures t != u ==> Pool(parts)[x] >= multiset(parts[t])[x] + multiset(parts[u])[x]
  {
    var n := |parts| - 1;
    if t < n && u < n {
      PoolCount(parts[..n], x, t, u);
    } else if t < n {
      PoolCount(parts[..n], x, t, t);
    } else if u < n {
      PoolCount(parts[..n], x, u, u);
    }
  }

  lemma {:induction false} PoolMember(parts: seq<seq<RepoWork>>, x: RepoWork) returns (t: nat)
    requires x in Pool(parts)
    ensures t < |parts| && x in parts[t]
  {
    var n := |parts| - 1;
    if x in parts[n] {
      t := n;
    } else {
      t := PoolMember(parts[..n], x);
    }
  }

  ghost predicate HoldsRepo(shard: seq<RepoWork>, org: string, repo: string, refs: seq<TenantRef>) {
    exists i :: 0 <= i < |shard| && shard[i].org == org && shard[i].repo == repo && shard[i].tenants == refs
  }

  lemma {:induction false} SumOfShardItems(s: seq<RepoWork>, a: seq<nat>, t: nat)
    requires |a| == |s|
    ensures ShardWeight(Select(s, a, t)) == Load(Effective(s), a, t)
  {
    if s != [] {
      var n := |s| - 1;
      assert s == s[..n] + [s[n]] && a == a[..n] + [a[n]];
      SumOfShardItems(s[..n], a[..n], t);
      SelectNext(s[..n], a[..n], s[n], a[n], t);
      assert Effective(s) == Effective(s[..n]) + [EffectiveWeight(s[n])];
      LoadAdds(Effective(s[..n]), EffectiveWeight(s[n]), a[..n], a[n], t);
      ShardWeightNext(Select(s[..n], a[..n], t), s[n]);
    }
  }

  lemma ShardWeightNext(shard: seq<RepoWork>, x: RepoWork)
    ensures ShardWeight(shard + [x]) == ShardWeight(shard) + EffectiveWeight(x)
    ensures ShardWeight(shard + []) == ShardWeight(shard)
  {
    assert (shard + [x])[..|shard|] == shard && shard + [] == shard;
  }

  /** An item listed once is in one part only. */
  lemma ItemInOnePart(list: seq<RepoWork>, parts: seq<seq<RepoWork>>, i: nat, t: nat, u: nat)
    requires Pool(parts) == multiset(list) && DistinctNames(list) && i < |list|
    requires t < |parts| && u < |parts| && t != u && list[i] in parts[t]
    ensures !Lists(parts[u], list[i].org, list[i].repo)
  {
    DistinctCount(list, i);
    PoolCount(parts, list[i], u, t);
    forall q: nat | q < |parts[u]|
      ensures parts[u][q].org != list[i].org || parts[u][q].repo != list[i].repo
    {
      assert parts[u][q] != list[i];
      var j := PartItemListed(list, parts, u, q);
    }
  }

  lemma PartItemListed(list: seq<RepoWork>, parts: seq<seq<RepoWork>>, u: nat, q: nat) returns (j: nat)
    requires Pool(parts) == multiset(list) && u < |parts| && q < |parts[u]|
    ensures j < |list| && list[j] == parts[u][q]
  {
    var x := parts[u][q];
    PoolCount(parts, x, u, u);
    assert x in multiset(parts[u]);
    assert x in multiset(list);
    j :| 0 <= j < |list| && list[j] == x;
  }

  /** A repo of the rows is in exactly one shard, once, with all the refs of its rows. */
  lemma RowsReachOneShard(rows: seq<ImportWorkRow>, taskCount: nat, k: nat) returns (t: nat)
    requires taskCount >= 1 && k < |rows|
    requires KeysTellReposApart(rows)
    ensures t < taskCount
    ensures HoldsRepo(Shard(WorkList(rows), taskCount, t), rows[k].org, rows[k].repo,
                      RefsOf(rows, rows[k].org, rows[k].repo))
    ensures TenantRef(rows[k].tenantRepoID, rows[k].tenantID, rows[k].plan)
            in RefsOf(rows, rows[k].org, rows[k].repo)
    ensures DistinctNames(Shard(WorkList(rows), taskCount, t))
    ensures forall u :: 0 <= u < taskCount && u != t ==>
              !Lists(Shard(WorkList(rows), taskCount, u), rows[k].org, rows[k].repo)
  {
    var list := WorkList(rows);
    WorkListGroups(rows);
    assert Lists(list, rows[k].org, rows[k].repo);
    var i :| 0 <= i < |list| && list[i].org == rows[k].org && list[i].repo == rows[k].repo;
    t := ShardOfItem(list, taskCount, i);
    var shard := Shard(list, taskCount, t);
    var pos :| 0 <= pos < |shard| && shard[pos] == list[i];
    RefListed(rows, k);
    ShardsPartition(list, taskCount);
    ShardNamesDistinct(list, AllShards(list, taskCount), t);
    forall u: nat | u < taskCount && u != t
      ensures !Lists(Shard(list, taskCount, u), rows[k].org, rows[k].repo)
    {
      ItemInOnePart(list, AllShards(list, taskCount), i, t, u);
    }
  }

  lemma ShardOfItem(list: seq<RepoWork>, taskCount: nat, i: nat) returns (t: nat)
    requires taskCount >= 1 && i < |list|
    ensures t < taskCount && list[i] in Shard(list, taskCount, t)
  {
    ShardsPartition(list, taskCount);
    assert list[i] in multiset(list);
    t := PoolMember(AllShards(list, taskCount), list[i]);
  }

  lemma {:induction false} RefListed(rows: seq<ImportWorkRow>, k: nat)
    requires k < |rows|
    ensures RefOf(rows[k]) in RefsOf(rows, rows[k].org, rows[k].repo)
  {
    if k < |rows| - 1 {
      RefListed(rows[..|rows| - 1], k);
    }
  }

  lemma DistinctCount(list: seq<RepoWork>, i: nat)
    requires i < |list| && DistinctNames(list)
    ensures multiset(list)[list[i]] == 1
  {
    assert list == list[..i] + [list[i]] + list[i + 1..];
    assert list[i] !in list[..i] && list[i] !in list[i + 1..];
    assert multiset(list) == multiset(list[..i]) + multiset{list[i]} + multiset(list[i + 1..]);
  }

  lemma ShardNamesDistinct(list: seq<RepoWork>, parts: seq<seq<RepoWork>>, t: nat)
    requires Pool(parts) == multiset(list) && t < |parts| && DistinctNames(list)
    ensures DistinctNames(parts[t])
  {
    forall i: nat, j: nat | i < j < |parts[t]|
      ensures parts[t][i].org != parts[t][j].org || parts[t][i].repo != parts[t][j].repo
    {
      var a := PartItemListed(list, parts, t, i);
      var b := PartItemListed(list, parts, t, j);
      DistinctCount(list, a);
      CountTwice(parts[t], i, j);
      PoolCount(parts, parts[t][i], t, t);
      assert a != b;
    }
  }

  lemma CountTwice(s: seq<RepoWork>, i: nat, j: nat)
    requires i < j < |s|
    ensures s[i] == s[j] ==> multiset(s)[s[i]] >= 2
  {
    assert s == s[..j] + s[j..];
    assert s[..j][i] == s[i] && s[j..][0] == s[j];
    assert s[i] in multiset(s[..j]) && s[j] in multiset(s[j..]);
  }

  lemma SortedDescending(repos: seq<RepoWork>)
    ensures Descending(Effective(StableSorted(repos)))
  {
    SortedOrdered(repos);
    var s := StableSorted(repos);
    forall i, j | 0 <= i < j < |s|
      ensures Effective(s)[i] >= Effective(s)[j]
    {
      assert !Less(s[j], s[i]);
    }
  }

  /** Loads of the heaviest and the lightest task differ by at most one repo. */
  lemma ShardsBalanced(repos: seq<RepoWork>, taskCount: nat, largest: nat, t: nat, u: nat)
    requires t < taskCount && u < taskCount
    requires forall i :: 0 <= i < |repos| ==> EffectiveWeight(repos[i]) <= largest
    ensures ShardWeight(Shard(repos, taskCount, t)) <= ShardWeight(Shard(repos, taskCount, u)) + largest
  {
    if repos != [] {
      var s := StableSorted(repos);
      SortedOrdered(repos);
      var a := Greedy(Effective(s), taskCount);
      SumOfShardItems(s, a, t);
      SumOfShardItems(s, a, u);
      forall i | 0 <= i < |s|
        ensures Effective(s)[i] <= largest
      {
        assert s[i] in multiset(s);
      }
      GreedyBalanced(Effective(s), taskCount, largest);
    }
  }

  // ---- Near-optimality against any other way to split the work ----

  function DropAt(s: seq<RepoWork>, i: nat): seq<RepoWork>
    requires i < |s|
  {
    s[..i] + s[i + 1..]
  }

  lemma {:induction false} DropAtWeight(s: seq<RepoWork>, i: nat)
    requires i < |s|
    ensures ShardWeight(s) == ShardWeight(DropAt(s, i)) + EffectiveWeight(s[i])
  {
    var n := |s| - 1;
    if i < n {
      DropAtWeight(s[..n], i);
      assert DropAt(s, i) == DropAt(s[..n], i) + [s[n]];
      ShardWeightNext(DropAt(s[..n], i), s[n]);
    } else {
      assert DropAt(s, i) == s[..n];
    }
  }

  lemma DropAtBag(s: seq<RepoWork>, i: nat)
    requires i < |s|
    ensures multiset(s) == multiset(DropAt(s, i)) + multiset{s[i]}
  {
    assert s == s[..i] + ([s[i]] + s[i + 1..]);
    assert multiset(s) == multiset(s[..i]) + (multiset{s[i]} + multiset(s[i + 1..]));
  }

  lemma {:induction false} PoolUpdate(parts: seq<seq<RepoWork>>, t: nat, part: seq<RepoWork>, x: RepoWork)
    requires t < |parts| && multiset(parts[t]) == multiset(part) + multiset{x}
    ensures Pool(parts) == Pool(parts[t := part]) + multiset{x}
  {
    var n := |parts| - 1;
    if t < n {
      PoolUpdate(parts[..n], t, part, x);
      assert parts[t := part][..n] == parts[..n][t := part];
    } else {
      assert parts[t := part][..n] == parts[..n];
    }
  }

  lemma NothingLeft(parts: seq<seq<RepoWork>>, t: nat)
    requires Pool(parts) == multiset{} && t < |parts|
    ensures parts[t] == []
  {
    forall x
      ensures x !in parts[t]
    {
      PoolCount(parts, x, t, t);
      assert x !in multiset(parts[t]);
    }
    assert multiset(parts[t]) == multiset{};
    assert |multiset(parts[t])| == |parts[t]|;
  }

  /** Takes one occurrence of x out of the part that holds it. */
  lemma TakeOut(parts: seq<seq<RepoWork>>, x: RepoWork) returns (t: nat, rest: seq<seq<RepoWork>>)
    requires x in Pool(parts)
    ensures t < |parts| && |rest| == |parts|
    ensures Pool(parts) == Pool(rest) + multiset{x}
    ensures forall u :: 0 <= u < |parts| ==>
              ShardWeight(parts[u]) == ShardWeight(rest[u]) + (if u == t then EffectiveWeight(x) else 0)
  {
    t := PoolMember(parts, x);
    var i :| 0 <= i < |parts[t]| && parts[t][i] == x;
    DropAtWeight(parts[t], i);
    DropAtBag(parts[t], i);
    rest := parts[t := DropAt(parts[t], i)];
    PoolUpdate(parts, t, DropAt(parts[t], i), x);
  }

  /** An assignment of the rest extends by the task from which x was taken out. */
  lemma ExtendAssignment(s: seq<RepoWork>, x: RepoWork, rest: seq<seq<RepoWork>>, b: seq<nat>, t: nat, u: nat)
    requires |b| == |s| && u < |rest| && Load(Effective(s), b, u) == ShardWeight(rest[u])
    ensures Load(Effective(s + [x]), b + [t], u) == ShardWeight(rest[u]) + (if u == t then EffectiveWeight(x) else 0)
  {
    assert Effective(s + [x]) == Effective(s) + [EffectiveWeight(x)];
    LoadAdds(Effective(s), EffectiveWeight(x), b, t, u);
  }

  lemma ExtendSplit(s: seq<RepoWork>, x: RepoWork, parts: seq<seq<RepoWork>>, rest: seq<seq<RepoWork>>,
                    b: seq<nat>, t: nat)
    requires |b| == |s| && |rest| == |parts|
    requires forall u :: 0 <= u < |parts| ==> Load(Effective(s), b, u) == ShardWeight(rest[u])
    requires forall u :: 0 <= u < |parts| ==>
               ShardWeight(parts[u]) == ShardWeight(rest[u]) + (if u == t then EffectiveWeight(x) else 0)
    ensures forall u :: 0 <= u < |parts| ==> Load(Effective(s + [x]), b + [t], u) == ShardWeight(parts[u])
  {
    forall u: nat | u < |parts|
      ensures Load(Effective(s + [x]), b + [t], u) == ShardWeight(parts[u])
    {
      ExtendAssignment(s, x, rest, b, t, u);
    }
  }

  lemma TakeFromBoth(s: seq<RepoWork>, x: RepoWork, pool: multiset<RepoWork>)
    requires multiset(s + [x]) == pool + multiset{x}
    ensures multiset(s) == pool
  {
    assert multiset(s) == multiset(s + [x]) - multiset{x};
    assert pool == (pool + multiset{x}) - multiset{x};
  }

  lemma EmptySplit(parts: seq<seq<RepoWork>>)
    requires Pool(parts) == multiset{}
    ensures forall t :: 0 <= t < |parts| ==> ShardWeight(parts[t]) == 0
  {
    forall t | 0 <= t < |parts|
      ensures ShardWeight(parts[t]) == 0
    {
      NothingLeft(parts, t);
    }
  }

  /** Any split of the same bag of repos is an assignment of the sorted list with the same loads. */
  lemma {:induction false} SplitAsAssignment(s: seq<RepoWork>, parts: seq<seq<RepoWork>>) returns (b: seq<nat>)
    requires multiset(s) == Pool(parts)
    ensures |b| == |s| && forall i :: 0 <= i < |b| ==> b[i] < |parts|
    ensures forall t :: 0 <= t < |parts| ==> Load(Effective(s), b, t) == ShardWeight(parts[t])
  {
    if s == [] {
      b := [];
      EmptySplit(parts);
    } else {
      hide Load, Effective, ShardWeight, Pool;
      var pre, x := s[..|s| - 1], s[|s| - 1];
      assert s == pre + [x];
      assert x in multiset(s) by { assert x in s; }
      var t, rest := TakeOut(parts, x);
      TakeFromBoth(pre, x, Pool(rest));
      var b' := SplitAsAssignment(pre, rest);
      ExtendSplit(pre, x, parts, rest, b', t);
      b := b' + [t];
    }
  }

  /**
   * No other split of the same repos over as many tasks has all its loads
   * below 3m/(4m-1) of the heaviest shard.
   */
  lemma ShardsNearOptimal(repos: seq<RepoWork>, taskCount: nat, rival: seq<seq<RepoWork>>, bound: nat, t: nat)
    requires t < taskCount && |rival| == taskCount && Pool(rival) == multiset(repos)
    requires forall u :: 0 <= u < taskCount ==> ShardWeight(rival[u]) <= bound
    ensures 3 * taskCount * ShardWeight(Shard(repos, taskCount, t)) <= (4 * taskCount - 1) * bound
  {
    if repos == [] {
      ScaleLong(taskCount, 0, bound);
    } else {
      var s := StableSorted(repos);
      SortedOrdered(repos);
      SortedDescending(repos);
      var b := SplitAsAssignment(s, rival);
      GreedyNearOptimal(Effective(s), taskCount, b, bound);
      SumOfShardItems(s, Greedy(Effective(s), taskCount), t);
    }
  }
}
