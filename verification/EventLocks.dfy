// Row locks of concurrent batch transactions: who waits for whom, and why the
// waiting never goes round in a circle.
module EventLocks {
  import opened Lexical
  import opened Events

  /** A row that a batch transaction locks. */
  datatype Row = DeveloperRow(username: string) | EventKeyRow(key: EventKey)

  /** Developers by username, then events by primary key. */
  function CompareRows(a: Row, b: Row): (c: int)
    ensures c == 0 <==> a == b
  {
    match (a, b)
    case (DeveloperRow(u), DeveloperRow(v)) => Compare(u, v)
    case (DeveloperRow(_), EventKeyRow(_)) => -1
    case (EventKeyRow(_), DeveloperRow(_)) => 1
    case (EventKeyRow(k), EventKeyRow(l)) => CompareKeys(k, l)
  }

  predicate Before(a: Row, b: Row) {
    CompareRows(a, b) < 0
  }

  lemma BeforeTransitive(a: Row, b: Row, c: Row)
    requires Before(a, b) && Before(b, c)
    ensures Before(a, c)
  {
    match (a, b, c)
    case (DeveloperRow(u), DeveloperRow(v), DeveloperRow(w)) => CompareTransitive(u, v, w);
    case (EventKeyRow(k), EventKeyRow(l), EventKeyRow(m)) => CompareKeysTransitive(k, l, m);
    case (_, _, _) =>
  }

  lemma BeforeTotal(a: Row, b: Row)
    ensures a == b || Before(a, b) || Before(b, a)
  {
    match (a, b)
    case (DeveloperRow(u), DeveloperRow(v)) => CompareFlips(u, v);
    case (EventKeyRow(k), EventKeyRow(l)) => CompareKeysFlips(k, l);
    case (_, _) =>
  }

  /** A row asked for is either locked already or beyond every row locked so far. */
  ghost predicate Rising(rows: seq<Row>) {
    forall i, j :: 0 <= i < j < |rows| ==> rows[j] in rows[..j] || Before(rows[i], rows[j])
  }

  // ---- The locks of a batch ----

  function DeveloperRows(usernames: seq<string>): (rows: seq<Row>)
    ensures |rows| == |usernames| && forall i :: 0 <= i < |rows| ==> rows[i] == DeveloperRow(usernames[i])
  {
    if usernames == [] then []
    else DeveloperRows(usernames[..|usernames| - 1]) + [DeveloperRow(usernames[|usernames| - 1])]
  }

  /** Each event row, and the developer row that its foreign key refers to. */
  function EventRows(batch: seq<Event>): (rows: seq<Row>)
    ensures |rows| == 2 * |batch|
    ensures forall i :: 0 <= i < |batch| ==> rows[2 * i] == EventKeyRow(batch[i].key)
    ensures forall i :: 0 <= i < |batch| ==> rows[2 * i + 1] == DeveloperRow(batch[i].key.username)
  {
    if batch == [] then []
    else
      var e := batch[|batch| - 1];
      EventRows(batch[..|batch| - 1]) + [EventKeyRow(e.key), DeveloperRow(e.key.username)]
  }

  /** The rows a batch transaction asks for, in the order of its statements. */
  function BatchRows(usernames: seq<string>, batch: seq<Event>): seq<Row> {
    DeveloperRows(usernames) + EventRows(batch)
  }

  function KeyRows(batch: seq<Event>): (rows: seq<Row>)
    ensures |rows| == |batch| && forall i :: 0 <= i < |rows| ==> rows[i] == EventKeyRow(batch[i].key)
  {
    seq(|batch|, i requires 0 <= i < |batch| => EventKeyRow(batch[i].key))
  }

  /** The rows that its statements write, without those that the foreign key only looks up. */
  function OwnRows(usernames: seq<string>, batch: seq<Event>): seq<Row> {
    DeveloperRows(usernames) + KeyRows(batch)
  }

  ghost predicate SortedNames(usernames: seq<string>) {
    forall i, j :: 0 <= i < j < |usernames| ==> Compare(usernames[i], usernames[j]) <= 0
  }

  /** Each event refers to a developer that the batch writes itself. */
  ghost predicate WritesItsDevelopers(usernames: seq<string>, batch: seq<Event>) {
    forall i :: 0 <= i < |batch| ==> batch[i].key.username in usernames
  }

  /**
   * Developers first, sorted by username, then events, sorted by primary key:
   * the rows are asked for in rising order if each event's developer is among
   * those written.
   */
  lemma BatchRowsRise(usernames: seq<string>, batch: seq<Event>)
    requires SortedNames(usernames) && SortedByKey(batch) && WritesItsDevelopers(usernames, batch)
    ensures Rising(BatchRows(usernames, batch))
  {
    var rows := BatchRows(usernames, batch);
    forall i, j | 0 <= i < j < |rows|
      ensures rows[j] in rows[..j] || Before(rows[i], rows[j])
    {
      RowsAt(usernames, batch, i);
      RowsAt(usernames, batch, j);
      assert rows[..j][i] == rows[i];
      var e, f := (j - |usernames|) / 2, (i - |usernames|) / 2;
      if j >= |usernames| {
        if rows[j].DeveloperRow? {
          DeveloperAskedBefore(usernames, batch, e, j);
        } else if rows[i].EventKeyRow? {
          assert f == e || CompareKeys(batch[f].key, batch[e].key) <= 0;
        }
      } else {
        assert Compare(usernames[i], usernames[j]) <= 0;
      }
    }
  }

  /** Those always rise. */
  lemma OwnRowsRise(usernames: seq<string>, batch: seq<Event>)
    requires SortedNames(usernames) && SortedByKey(batch)
    ensures Rising(OwnRows(usernames, batch))
  {
    var rows, n := OwnRows(usernames, batch), |usernames|;
    forall i, j | 0 <= i < j < |rows|
      ensures rows[j] in rows[..j] || Before(rows[i], rows[j])
    {
      assert rows[..j][i] == rows[i];
      if j < n {
        assert Compare(usernames[i], usernames[j]) <= 0;
      } else if i >= n {
        assert CompareKeys(batch[i - n].key, batch[j - n].key) <= 0;
      }
    }
  }

  /** The first event whose developer the batch does not write. */
  lemma {:induction false} FirstUnwritten(usernames: seq<string>, batch: seq<Event>, n: nat) returns (e: nat)
    requires n <= |batch| && exists i :: 0 <= i < n && batch[i].key.username !in usernames
    ensures e < n && batch[e].key.username !in usernames
    ensures forall i :: 0 <= i < e ==> batch[i].key.username in usernames
  {
    if i :| 0 <= i < n - 1 && batch[i].key.username !in usernames {
      e := FirstUnwritten(usernames, batch, n - 1);
    } else {
      e := n - 1;
    }
  }

  /** Sorted as they are, the rows rise exactly when the batch writes all the developers its events refer to. */
  lemma BatchRowsRiseIff(usernames: seq<string>, batch: seq<Event>)
    requires SortedNames(usernames) && SortedByKey(batch)
    ensures Rising(BatchRows(usernames, batch)) <==> WritesItsDevelopers(usernames, batch)
  {
    if WritesItsDevelopers(usernames, batch) {
      BatchRowsRise(usernames, batch);
    } else {
      var e := FirstUnwritten(usernames, batch, |batch|);
      UnwrittenFallsBack(usernames, batch, e);
    }
  }

  lemma UnwrittenFallsBack(usernames: seq<string>, batch: seq<Event>, e: nat)
    requires e < |batch| && batch[e].key.username !in usernames
    requires forall i :: 0 <= i < e ==> batch[i].key.username in usernames
    ensures !Rising(BatchRows(usernames, batch))
  {
    var rows := BatchRows(usernames, batch);
    var j := |usernames| + 2 * e + 1;
    RowsAt(usernames, batch, j - 1);
    RowsAt(usernames, batch, j);
    forall i | 0 <= i < j
      ensures rows[i] != rows[j]
    {
      RowsAt(usernames, batch, i);
    }
    assert rows[j] !in rows[..j];
    assert !Before(rows[j - 1], rows[j]);
  }

  lemma RowsAt(usernames: seq<string>, batch: seq<Event>, i: nat)
    requires i < |BatchRows(usernames, batch)|
    ensures var r := BatchRows(usernames, batch)[i]; var e := (i - |usernames|) / 2;
            if i < |usernames| then r == DeveloperRow(usernames[i])
            else if (i - |usernames|) % 2 == 0 then r == EventKeyRow(batch[e].key)
            else r == DeveloperRow(batch[e].key.username)
  {
    if i >= |usernames| {
      var k := i - |usernames|;
      assert BatchRows(usernames, batch)[i] == EventRows(batch)[k];
      assert k == 2 * (k / 2) + k % 2;
    }
  }

  lemma DeveloperAskedBefore(usernames: seq<string>, batch: seq<Event>, e: nat, j: nat)
    requires e < |batch| && j == |usernames| + 2 * e + 1
    requires batch[e].key.username in usernames
    ensures var rows := BatchRows(usernames, batch); rows[j] in rows[..j]
  {
    var rows := BatchRows(usernames, batch);
    var k :| 0 <= k < |usernames| && usernames[k] == batch[e].key.username;
    assert rows[..j][k] == DeveloperRow(usernames[k]);
  }

  // ---- Transactions ----

  /** A transaction that asks for rows in order; it has the first pos of them. */
  datatype Txn = Txn(rows: seq<Row>, pos: nat, ended: bool)

  predicate Holds(t: Txn, r: Row) {
    !t.ended && t.pos <= |t.rows| && r in t.rows[..t.pos]
  }

  type System = seq<Txn>

  /** Two transactions never hold the same row. */
  ghost predicate Exclusive(s: System) {
    forall i, j, r :: 0 <= i < |s| && 0 <= j < |s| && i != j && Holds(s[i], r) ==> !Holds(s[j], r)
  }

  ghost predicate Inv(s: System) {
    && Exclusive(s)
    && forall i :: 0 <= i < |s| ==> s[i].pos <= |s[i].rows| && Rising(s[i].rows)
  }

  predicate Asks(s: System, i: nat) {
    i < |s| && !s[i].ended && s[i].pos < |s[i].rows|
  }

  /** i cannot go on until j lets go of the row that i asks for. */
  predicate WaitsFor(s: System, i: nat, j: nat) {
    Asks(s, i) && j < |s| && j != i && Holds(s[j], s[i].rows[s[i].pos])
  }

  predicate Blocked(s: System, i: nat) {
    exists j: nat | j < |s| :: WaitsFor(s, i, j)
  }

  // Steps: a batch transaction begins, gets the row it asks for, or ends (commit or rollback).

  /**
   * The transaction of a sorted batch: its statements' own rows, or, if it writes
   * the developers its events refer to, those rows with the foreign key's.
   */
  ghost predicate OfBatch(rows: seq<Row>) {
    exists usernames, batch ::
      && SortedNames(usernames) && SortedByKey(batch)
      && (|| rows == OwnRows(usernames, batch)
          || (rows == BatchRows(usernames, batch) && WritesItsDevelopers(usernames, batch)))
  }

  lemma OfBatchRises(rows: seq<Row>)
    requires OfBatch(rows)
    ensures Rising(rows)
  {
    var usernames, batch :|
      && SortedNames(usernames) && SortedByKey(batch)
      && (|| rows == OwnRows(usernames, batch)
          || (rows == BatchRows(usernames, batch) && WritesItsDevelopers(usernames, batch)));
    OwnRowsRise(usernames, batch);
    BatchRowsRiseIff(usernames, batch);
  }

  ghost predicate Begin(s: System, s': System) {
    |s'| == |s| + 1 && s'[..|s|] == s && s'[|s|].pos == 0 && !s'[|s|].ended && OfBatch(s'[|s|].rows)
  }

  ghost predicate Acquire(s: System, s': System, i: nat) {
    Asks(s, i) && !Blocked(s, i) && s' == s[i := s[i].(pos := s[i].pos + 1)]
  }

  ghost predicate End(s: System, s': System, i: nat) {
    i < |s| && !s[i].ended && s' == s[i := s[i].(ended := true)]
  }

  ghost predicate Next(s: System, s': System) {
    Begin(s, s') || exists i: nat :: Acquire(s, s', i) || End(s, s', i)
  }

  lemma AcquireKeepsInv(s: System, s': System, i: nat)
    requires Inv(s) && Acquire(s, s', i)
    ensures Inv(s')
  {
    var want := s[i].rows[s[i].pos];
    forall r
      ensures Holds(s'[i], r) <==> Holds(s[i], r) || r == want
    {
      assert s[i].rows[..s[i].pos + 1] == s[i].rows[..s[i].pos] + [want];
    }
    forall j, k, r | 0 <= j < |s'| && 0 <= k < |s'| && j != k && Holds(s'[j], r)
      ensures !Holds(s'[k], r)
    {
      assert !WaitsFor(s, i, j) && !WaitsFor(s, i, k);
    }
  }

  lemma StepKeepsInv(s: System, s': System)
    requires Inv(s) && Next(s, s')
    ensures Inv(s')
  {
    if Begin(s, s') {
      OfBatchRises(s'[|s|].rows);
      hide OfBatch, Rising;
      assert forall i :: 0 <= i < |s| ==> s'[i] == s'[..|s|][i] == s[i];
      assert forall r :: !Holds(s'[|s|], r);
    } else {
      var i: nat :| Acquire(s, s', i) || End(s, s', i);
      if Acquire(s, s', i) {
        AcquireKeepsInv(s, s', i);
      }
    }
  }

  ghost predicate IsRun(run: seq<System>) {
    && |run| > 0
    && run[0] == []
    && forall n :: 0 <= n < |run| - 1 ==> Next(run[n], run[n + 1])
  }

  lemma {:induction false} RunKeepsInv(run: seq<System>)
    requires IsRun(run)
    ensures Inv(run[|run| - 1])
  {
    var n := |run| - 1;
    if n > 0 {
      RunKeepsInv(run[..n]);
      assert Next(run[n - 1], run[n]);
      StepKeepsInv(run[n - 1], run[n]);
    }
  }

  // ---- No deadlock ----

  /** Whoever waits, asks for a row beyond everything it holds. */
  lemma AsksBeyondHeld(s: System, i: nat, j: nat, r: Row)
    requires Inv(s) && WaitsFor(s, i, j) && Holds(s[i], r)
    ensures Before(r, s[i].rows[s[i].pos])
  {
    var t := s[i];
    var k :| 0 <= k < t.pos && t.rows[..t.pos][k] == r;
    assert !Holds(t, t.rows[t.pos]);
    assert t.rows[k] == r;
  }

  /** a path in the wait-for graph. */
  ghost predicate WaitPath(s: System, path: seq<nat>) {
    |path| > 0 && forall n :: 0 <= n < |path| - 1 ==> WaitsFor(s, path[n], path[n + 1])
  }

  /** Along a path of waiting transactions the rows asked for only rise. */
  lemma {:induction false} WaitPathRises(s: System, path: seq<nat>)
    requires Inv(s) && WaitPath(s, path) && |path| >= 2
    requires Blocked(s, path[|path| - 1])
    ensures Asks(s, path[0]) && Asks(s, path[|path| - 1])
    ensures var first, last := s[path[0]], s[path[|path| - 1]];
            Before(first.rows[first.pos], last.rows[last.pos])
  {
    var n := |path| - 1;
    assert WaitsFor(s, path[n - 1], path[n]);
    var mid, last := s[path[n - 1]], s[path[n]];
    var j: nat :| j < |s| && WaitsFor(s, path[n], j);
    AsksBeyondHeld(s, path[n], j, mid.rows[mid.pos]);
    if n > 1 {
      forall k | 0 <= k < n - 1
        ensures WaitsFor(s, path[..n][k], path[..n][k + 1])
      {
        assert WaitsFor(s, path[k], path[k + 1]);
      }
      assert path[n] < |s|;
      WaitPathRises(s, path[..n]);
      var first := s[path[0]];
      BeforeTransitive(first.rows[first.pos], mid.rows[mid.pos], last.rows[last.pos]);
    }
  }

  /** In every reachable state the wait-for graph of any number of batch transactions has no cycle. */
  lemma WaitForGraphAcyclic(run: seq<System>, path: seq<nat>)
    requires IsRun(run) && WaitPath(run[|run| - 1], path) && |path| >= 2
    ensures path[0] != path[|path| - 1]
  {
    RunKeepsInv(run);
    hide IsRun;
    var s := run[|run| - 1];
    if path[0] == path[|path| - 1] {
      assert WaitsFor(s, path[0], path[1]);
      WaitPathRises(s, path);
    }
  }

  /** Among the waiting transactions one asks for the furthest row. */
  lemma {:induction false} FurthestAsked(s: System, n: nat) returns (i: nat)
    requires n <= |s| && exists j: nat | j < n :: Asks(s, j)
    ensures i < n && Asks(s, i)
    ensures forall j: nat :: j < n && Asks(s, j) ==>
              !Before(s[i].rows[s[i].pos], s[j].rows[s[j].pos])
  {
    if exists j: nat | j < n - 1 :: Asks(s, j) {
      i := FurthestAsked(s, n - 1);
      if Asks(s, n - 1) && Before(s[i].rows[s[i].pos], s[n - 1].rows[s[n - 1].pos]) {
        var last := s[n - 1].rows[s[n - 1].pos];
        forall j: nat | j < n && Asks(s, j)
          ensures !Before(last, s[j].rows[s[j].pos])
        {
          if Before(last, s[j].rows[s[j].pos]) {
            BeforeTransitive(s[i].rows[s[i].pos], last, s[j].rows[s[j].pos]);
          }
        }
        i := n - 1;
      }
    } else {
      i := n - 1;
    }
  }

  ghost predicate AnyOpen(s: System) {
    exists j :: 0 <= j < |s| && !s[j].ended
  }

  /** In every reachable state, while a transaction is open, some open transaction can go on. */
  lemma SomeTransactionCanStep(run: seq<System>) returns (i: nat)
    requires IsRun(run) && AnyOpen(run[|run| - 1])
    ensures var s := run[|run| - 1];
            i < |s| && !s[i].ended && (s[i].pos == |s[i].rows| || !Blocked(s, i))
  {
    RunKeepsInv(run);
    hide IsRun;
    var s := run[|run| - 1];
    if exists j: nat | j < |s| :: Asks(s, j) {
      i := FurthestAsked(s, |s|);
      if Blocked(s, i) {
        var j: nat :| j < |s| && WaitsFor(s, i, j);
        i := HolderIsNotBlocked(s, i, j);
      }
    } else {
      i :| 0 <= i < |s| && !s[i].ended;
    }
  }

  lemma HolderIsNotBlocked(s: System, i: nat, j: nat) returns (k: nat)
    requires Inv(s) && WaitsFor(s, i, j)
    requires forall l: nat :: l < |s| && Asks(s, l) ==> !Before(s[i].rows[s[i].pos], s[l].rows[s[l].pos])
    ensures k == j && !Blocked(s, j)
  {
    k := j;
    var want := s[i].rows[s[i].pos];
    forall l: nat | l < |s|
      ensures !WaitsFor(s, j, l)
    {
      if WaitsFor(s, j, l) {
        AsksBeyondHeld(s, j, l, want);
      }
    }
  }
}
