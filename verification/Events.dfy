// Event rows: their primary key order, the batches of a flush, and the upserts
// that a batch transaction performs.
module Events {
  import opened Lexical
  import opened Options

  datatype EventKey = EventKey(org: string, repo: string, username: string, eventType: string, date: string)

  /** The columns that an upsert overwrites. */
  datatype Text = Text(url: string, mentions: string, labels: string, title: string)

  /** The nullable columns, which an upsert sets only to non-null values. */
  datatype Details = Details(
    state: Option<string>, number: Option<int>, createdAt: Option<string>, closedAt: Option<string>,
    mergedAt: Option<string>, additions: Option<int>, deletions: Option<int>, changedFiles: Option<int>,
    commits: Option<int>)

  datatype Event = Event(key: EventKey, text: Text, details: Details)

  datatype EventRow = EventRow(text: Text, details: Details)

  // ---- Primary key order ----

  function CompareKeys(a: EventKey, b: EventKey): (c: int)
    ensures c == 0 <==> a == b
  {
    if Compare(a.org, b.org) != 0 then Compare(a.org, b.org)
    else if Compare(a.repo, b.repo) != 0 then Compare(a.repo, b.repo)
    else if Compare(a.username, b.username) != 0 then Compare(a.username, b.username)
    else if Compare(a.eventType, b.eventType) != 0 then Compare(a.eventType, b.eventType)
    else Compare(a.date, b.date)
  }

  lemma CompareKeysFlips(a: EventKey, b: EventKey)
    ensures CompareKeys(a, b) == -CompareKeys(b, a)
  {
    CompareFlips(a.org, b.org);
    CompareFlips(a.repo, b.repo);
    CompareFlips(a.username, b.username);
    CompareFlips(a.eventType, b.eventType);
    CompareFlips(a.date, b.date);
  }

  lemma CompareKeysTransitive(a: EventKey, b: EventKey, c: EventKey)
    requires CompareKeys(a, b) <= 0 && CompareKeys(b, c) <= 0
    ensures CompareKeys(a, c) <= 0
    ensures CompareKeys(a, b) < 0 || CompareKeys(b, c) < 0 ==> CompareKeys(a, c) < 0
  {
    CompareTransitive(a.org, b.org, c.org);
    if a.org == b.org == c.org {
      CompareTransitive(a.repo, b.repo, c.repo);
      if a.repo == b.repo == c.repo {
        CompareTransitive(a.username, b.username, c.username);
        if a.username == b.username == c.username {
          CompareTransitive(a.eventType, b.eventType, c.eventType);
          if a.eventType == b.eventType == c.eventType {
            CompareTransitive(a.date, b.date, c.date);
          }
        }
      }
    }
  }

  /** The primary key's columns, in its order. */
  function Columns(k: EventKey): (c: seq<string>)
    ensures |c| == 5
  {
    [k.org, k.repo, k.username, k.eventType, k.date]
  }

  ghost predicate LessAtColumn(a: EventKey, b: EventKey, i: nat) {
    i < 5 && Columns(a)[..i] == Columns(b)[..i] && Compare(Columns(a)[i], Columns(b)[i]) < 0
  }

  /** The first column that differs decides. */
  lemma CompareKeysMeaning(a: EventKey, b: EventKey)
    ensures CompareKeys(a, b) < 0 <==> exists i: nat :: LessAtColumn(a, b, i)
  {
    hide Compare;
    var c, d := Columns(a), Columns(b);
    if CompareKeys(a, b) < 0 {
      var i := if a.org != b.org then 0 else if a.repo != b.repo then 1 else if a.username != b.username then 2
               else if a.eventType != b.eventType then 3 else 4;
      SameOnlyIfEqual(a, b);
      assert LessAtColumn(a, b, i);
    }
    if i: nat :| LessAtColumn(a, b, i) {
      SameOnlyIfEqual(a, b);
      forall j | 0 <= j < i ensures c[j] == d[j] {
        assert c[..i][j] == d[..i][j];
      }
      assert (i > 0 ==> c[0] == d[0]) && (i > 1 ==> c[1] == d[1]) && (i > 2 ==> c[2] == d[2]) && (i > 3 ==> c[3] == d[3]);
    }
  }

  lemma SameOnlyIfEqual(a: EventKey, b: EventKey)
    ensures Compare(a.org, b.org) == 0 <==> a.org == b.org
    ensures Compare(a.repo, b.repo) == 0 <==> a.repo == b.repo
    ensures Compare(a.username, b.username) == 0 <==> a.username == b.username
    ensures Compare(a.eventType, b.eventType) == 0 <==> a.eventType == b.eventType
    ensures Compare(a.date, b.date) == 0 <==> a.date == b.date
  {
  }

  ghost predicate SortedByKey(s: seq<Event>) {
    forall i, j :: 0 <= i < j < |s| ==> CompareKeys(s[i].key, s[j].key) <= 0
  }

  /** What slices.SortFunc promises: it may order events with equal keys as it likes. */
  ghost predicate IsSortOf(sorted: seq<Event>, s: seq<Event>) {
    multiset(sorted) == multiset(s) && SortedByKey(sorted)
  }

  lemma PlaceKeepsSorted(s: seq<Event>, e: Event, j: nat)
    requires SortedByKey(s) && j <= |s|
    requires j > 0 ==> CompareKeys(s[j - 1].key, e.key) <= 0
    requires forall p :: j <= p < |s| ==> CompareKeys(e.key, s[p].key) <= 0
    ensures SortedByKey(s[..j] + [e] + s[j..])
  {
    hide CompareKeys;
    forall p | 0 <= p < j
      ensures CompareKeys(s[p].key, e.key) <= 0
    {
      if p < j - 1 {
        CompareKeysTransitive(s[p].key, s[j - 1].key, e.key);
      }
    }
  }

  lemma PlaceKeepsItems(s: seq<Event>, e: Event, j: nat)
    requires j <= |s|
    ensures multiset(s[..j] + [e] + s[j..]) == multiset(s) + multiset{e}
  {
    assert s == s[..j] + s[j..];
  }

  /** Where e belongs among the sorted events: behind those not after it. */
  method FindPlace(s: seq<Event>, e: Event) returns (j: nat)
    ensures j <= |s|
    ensures j > 0 ==> CompareKeys(s[j - 1].key, e.key) <= 0
    ensures forall p :: j <= p < |s| ==> CompareKeys(e.key, s[p].key) <= 0
  {
    j := |s|;
    while j > 0 && CompareKeys(s[j - 1].key, e.key) > 0
      invariant 0 <= j <= |s|
      invariant forall p :: j <= p < |s| ==> CompareKeys(e.key, s[p].key) <= 0
    {
      CompareKeysFlips(s[j - 1].key, e.key);
      j := j - 1;
    }
  }

  method SortEvents(events: seq<Event>) returns (sorted: seq<Event>)
    ensures IsSortOf(sorted, events)
  {
    sorted := [];
    for i := 0 to |events|
      invariant SortedByKey(sorted) && multiset(sorted) == multiset(events[..i])
    {
      var j := FindPlace(sorted, events[i]);
      PlaceKeepsSorted(sorted, events[i], j);
      PlaceKeepsItems(sorted, events[i], j);
      assert events[..i + 1] == events[..i] + [events[i]];
      sorted := sorted[..j] + [events[i]] + sorted[j..];
    }
    assert events[..|events|] == events;
  }

  // ---- Batches ----

  function Concat<T>(parts: seq<seq<T>>): seq<T> {
    if parts == [] then [] else parts[0] + Concat(parts[1..])
  }

  lemma {:induction false} ConcatAppend<T>(a: seq<seq<T>>, b: seq<seq<T>>)
    ensures Concat(a + b) == Concat(a) + Concat(b)
  {
    if a == [] {
      assert a + b == b;
    } else {
      assert (a + b)[1..] == a[1..] + b;
      ConcatAppend(a[1..], b);
    }
  }

  /** Full batches of the given size, the last one possibly shorter, in order. */
  ghost predicate IsSplit<T>(batches: seq<seq<T>>, items: seq<T>, size: int) {
    if items == [] || size < 1 then batches == []
    else
      && Concat(batches) == items
      && (forall i :: 0 <= i < |batches| ==> 0 < |batches[i]| <= size)
      && (forall i :: 0 <= i < |batches| - 1 ==> |batches[i]| == size)
  }

  method SplitIntoBatches<T>(items: seq<T>, size: int) returns (batches: seq<seq<T>>)
    ensures IsSplit(batches, items, size)
  {
    batches := [];
    if |items| == 0 || size < 1 {
      return;
    }
    var i := 0;
    while i < |items|
      invariant 0 <= i <= |items|
      invariant Concat(batches) == items[..i]
      invariant forall b :: 0 <= b < |batches| ==> 0 < |batches[b]| <= size
      invariant forall b :: 0 <= b < |batches| ==> |batches[b]| == size || (b == |batches| - 1 && i == |items|)
      decreases |items| - i
    {
      var end := i + size;
      if end > |items| {
        end := |items|;
      }
      ConcatAppend(batches, [items[i..end]]);
      assert Concat([items[i..end]]) == items[i..end];
      assert items[..i] + items[i..end] == items[..end];
      batches := batches + [items[i..end]];
      i := end;
    }
    assert items[..i] == items;
  }

  // ---- Upserting events ----

  function Coalesce<T>(incoming: Option<T>, stored: Option<T>): Option<T> {
    if incoming.Some? then incoming else stored
  }

  /** Column by column COALESCE(incoming, stored). */
  function Over(a: Details, b: Details): Details {
    Details(
      Coalesce(a.state, b.state), Coalesce(a.number, b.number), Coalesce(a.createdAt, b.createdAt),
      Coalesce(a.closedAt, b.closedAt), Coalesce(a.mergedAt, b.mergedAt), Coalesce(a.additions, b.additions),
      Coalesce(a.deletions, b.deletions), Coalesce(a.changedFiles, b.changedFiles), Coalesce(a.commits, b.commits))
  }

  type EventTable = map<EventKey, EventRow>

  /** INSERT ... ON CONFLICT DO UPDATE of one event. */
  function Upsert(t: EventTable, e: Event): EventTable {
    if e.key in t then t[e.key := EventRow(e.text, Over(e.details, t[e.key].details))]
    else t[e.key := EventRow(e.text, e.details)]
  }

  function UpsertAll(t: EventTable, s: seq<Event>): EventTable {
    if s == [] then t else Upsert(UpsertAll(t, s[..|s| - 1]), s[|s| - 1])
  }

  lemma {:induction false} UpsertAllAppend(t: EventTable, a: seq<Event>, b: seq<Event>)
    ensures UpsertAll(t, a + b) == UpsertAll(UpsertAll(t, a), b)
  {
    if b == [] {
      assert a + b == a;
    } else {
      var n := |b| - 1;
      assert (a + b)[..|a + b| - 1] == a + b[..n];
      UpsertAllAppend(t, a, b[..n]);
    }
  }

  /** The last event with this key; None when there is none. */
  function LastWith(s: seq<Event>, k: EventKey): Option<Event> {
    if s == [] then None
    else if s[|s| - 1].key == k then Some(s[|s| - 1])
    else LastWith(s[..|s| - 1], k)
  }

  /** The last non-null value of a column among the events with this key. */
  function LastNonNull<T>(s: seq<Event>, k: EventKey, column: Details -> Option<T>): Option<T> {
    if s == [] then None
    else
      var e := s[|s| - 1];
      if e.key == k && column(e.details).Some? then column(e.details)
      else LastNonNull(s[..|s| - 1], k, column)
  }

  function StateOf(d: Details): Option<string> { d.state }
  function NumberOf(d: Details): Option<int> { d.number }
  function CreatedAtOf(d: Details): Option<string> { d.createdAt }
  function ClosedAtOf(d: Details): Option<string> { d.closedAt }
  function MergedAtOf(d: Details): Option<string> { d.mergedAt }
  function AdditionsOf(d: Details): Option<int> { d.additions }
  function DeletionsOf(d: Details): Option<int> { d.deletions }
  function ChangedFilesOf(d: Details): Option<int> { d.changedFiles }
  function CommitsOf(d: Details): Option<int> { d.commits }

  /** A stored nullable column, null when there is no row. */
  function Stored<T>(t: EventTable, k: EventKey, column: Details -> Option<T>): Option<T> {
    if k in t then column(t[k].details) else None
  }

  /** Two detail records merge column by column. */
  ghost predicate Coalesces<T>(column: Details -> Option<T>) {
    forall a, b {:trigger column(Over(a, b))} :: column(Over(a, b)) == Coalesce(column(a), column(b))
  }

  lemma {:induction false} ColumnAfterUpserts<T>(t: EventTable, s: seq<Event>, k: EventKey, column: Details -> Option<T>)
    requires Coalesces(column)
    ensures Stored(UpsertAll(t, s), k, column) == Coalesce(LastNonNull(s, k, column), Stored(t, k, column))
  {
    if s != [] {
      var n := |s| - 1;
      ColumnAfterUpserts(t, s[..n], k, column);
      var before := UpsertAll(t, s[..n]);
      if s[n].key == k && k in before {
        assert column(Over(s[n].details, before[k].details))
            == Coalesce(column(s[n].details), column(before[k].details));
      }
    }
  }

  lemma {:induction false} RowAfterUpserts(t: EventTable, s: seq<Event>, k: EventKey)
    ensures k in UpsertAll(t, s) <==> k in t || LastWith(s, k).Some?
    ensures LastWith(s, k).Some? ==> UpsertAll(t, s)[k].text == LastWith(s, k).value.text
    ensures LastWith(s, k).None? && k in t ==> UpsertAll(t, s)[k] == t[k]
  {
    if s != [] {
      RowAfterUpserts(t, s[..|s| - 1], k);
    }
  }

  /**
   * What a sequence of upserts leaves: overwritten columns come from the last
   * event with the key, each nullable column keeps the last non-null value
   * it was given, or what was stored before.
   */
  lemma UpsertsKeepLastValues(t: EventTable, s: seq<Event>, k: EventKey)
    ensures var r := UpsertAll(t, s);
      && (k in r <==> k in t || LastWith(s, k).Some?)
      && (k in r ==>
            && r[k].text == (if LastWith(s, k).Some? then LastWith(s, k).value.text else t[k].text)
            && r[k].details.state == Coalesce(LastNonNull(s, k, StateOf), Stored(t, k, StateOf))
            && r[k].details.number == Coalesce(LastNonNull(s, k, NumberOf), Stored(t, k, NumberOf))
            && r[k].details.createdAt == Coalesce(LastNonNull(s, k, CreatedAtOf), Stored(t, k, CreatedAtOf))
            && r[k].details.closedAt == Coalesce(LastNonNull(s, k, ClosedAtOf), Stored(t, k, ClosedAtOf))
            && r[k].details.mergedAt == Coalesce(LastNonNull(s, k, MergedAtOf), Stored(t, k, MergedAtOf))
            && r[k].details.additions == Coalesce(LastNonNull(s, k, AdditionsOf), Stored(t, k, AdditionsOf))
            && r[k].details.deletions == Coalesce(LastNonNull(s, k, DeletionsOf), Stored(t, k, DeletionsOf))
            && r[k].details.changedFiles == Coalesce(LastNonNull(s, k, ChangedFilesOf), Stored(t, k, ChangedFilesOf))
            && r[k].details.commits == Coalesce(LastNonNull(s, k, CommitsOf), Stored(t, k, CommitsOf)))
  {
    RowAfterUpserts(t, s, k);
    ColumnAfterUpserts(t, s, k, StateOf);
    ColumnAfterUpserts(t, s, k, NumberOf);
    ColumnAfterUpserts(t, s, k, CreatedAtOf);
    ColumnAfterUpserts(t, s, k, ClosedAtOf);
    ColumnAfterUpserts(t, s, k, MergedAtOf);
    ColumnAfterUpserts(t, s, k, AdditionsOf);
    ColumnAfterUpserts(t, s, k, DeletionsOf);
    ColumnAfterUpserts(t, s, k, ChangedFilesOf);
    ColumnAfterUpserts(t, s, k, CommitsOf);
  }

  lemma {:induction false} LastWithIn(batch: seq<Event>, k: EventKey)
    ensures LastWith(batch, k).Some? ==> LastWith(batch, k).value in batch && LastWith(batch, k).value.key == k
    ensures LastWith(batch, k).None? ==> forall e :: e in batch ==> e.key != k
  {
    if batch != [] {
      LastWithIn(batch[..|batch| - 1], k);
      assert batch == batch[..|batch| - 1] + [batch[|batch| - 1]];
    }
  }

  // ---- Replay ----

  lemma {:induction false} LastWithAppend(a: seq<Event>, b: seq<Event>, k: EventKey)
    ensures LastWith(a + b, k) == if LastWith(b, k).Some? then LastWith(b, k) else LastWith(a, k)
  {
    if b == [] {
      assert a + b == a;
    } else {
      assert (a + b)[..|a + b| - 1] == a + b[..|b| - 1];
      LastWithAppend(a, b[..|b| - 1], k);
    }
  }

  lemma {:induction false} LastNonNullAppend<T>(a: seq<Event>, b: seq<Event>, k: EventKey, column: Details -> Option<T>)
    ensures LastNonNull(a + b, k, column) == Coalesce(LastNonNull(b, k, column), LastNonNull(a, k, column))
  {
    if b == [] {
      assert a + b == a;
    } else {
      assert (a + b)[..|a + b| - 1] == a + b[..|b| - 1];
      LastNonNullAppend(a, b[..|b| - 1], k, column);
    }
  }

  lemma ColumnReplayed<T>(t: EventTable, done: seq<Event>, s: seq<Event>, k: EventKey, column: Details -> Option<T>)
    requires Coalesces(column) && done <= s
    ensures Stored(UpsertAll(UpsertAll(t, done), s), k, column) == Stored(UpsertAll(t, s), k, column)
  {
    ColumnAfterUpserts(t, done, k, column);
    ColumnAfterUpserts(UpsertAll(t, done), s, k, column);
    ColumnAfterUpserts(t, s, k, column);
    assert s == done + s[|done|..];
    LastNonNullAppend(done, s[|done|..], k, column);
  }

  /** Upserting any prefix first changes nothing about upserting the whole sequence. */
  lemma EventReplay(t: EventTable, done: seq<Event>, s: seq<Event>)
    requires done <= s
    ensures UpsertAll(UpsertAll(t, done), s) == UpsertAll(t, s)
  {
    var again, once := UpsertAll(UpsertAll(t, done), s), UpsertAll(t, s);
    assert s == done + s[|done|..];
    forall k
      ensures k in again <==> k in once
      ensures k in again ==> again[k] == once[k]
    {
      LastWithAppend(done, s[|done|..], k);
      RowAfterUpserts(t, done, k);
      RowAfterUpserts(UpsertAll(t, done), s, k);
      RowAfterUpserts(t, s, k);
      ColumnReplayed(t, done, s, k, StateOf);
      ColumnReplayed(t, done, s, k, NumberOf);
      ColumnReplayed(t, done, s, k, CreatedAtOf);
      ColumnReplayed(t, done, s, k, ClosedAtOf);
      ColumnReplayed(t, done, s, k, MergedAtOf);
      ColumnReplayed(t, done, s, k, AdditionsOf);
      ColumnReplayed(t, done, s, k, DeletionsOf);
      ColumnReplayed(t, done, s, k, ChangedFilesOf);
      ColumnReplayed(t, done, s, k, CommitsOf);
    }
  }
}
