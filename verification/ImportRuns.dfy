// Every interleaving of the importers of one repo: events are added, the buffer
// is taken, batches commit, flushes fail or finish.
module ImportRuns {
  import opened Options
  import opened Events
  import opened Developers
  import opened EventImporter
  import opened EventBuffer

  datatype Status = Open | Finished | Failed

  /** A flush under way: what it took, what it has stored and what is left to store. */
  datatype Flight = Flight(events: seq<Event>, users: map<string, User>, stored: seq<Event>,
                           left: seq<seq<Event>>, status: Status)

  /** added is the history of all events added so far. */
  datatype State = State(buffer: Buffer, flights: seq<Flight>, tables: Tables, added: seq<Event>)

  // ---- Steps ----

  ghost predicate Init(s: State, t0: Tables) {
    && s == State(Buffer([], map[], map[], 0), [], t0, [])
    && ReferencesHold(t0)
  }

  /** The critical section of add. */
  ghost predicate Add(s: State, s': State, e: Event, usr: User) {
    && usr.login != "" && e.key.username == usr.login
    && s' == s.(buffer := AddTo(s.buffer, e, usr), added := s.added + [e])
  }

  /** The critical section of flush, with the sort and the split that follow it. */
  ghost predicate Take(s: State, s': State, sorted: seq<Event>, batches: seq<seq<Event>>, size: int) {
    && s.buffer.list != [] && size >= 1
    && IsSortOf(sorted, s.buffer.list) && IsSplit(batches, sorted, size)
    && s' == s.(buffer := s.buffer.(list := []),
                flights := s.flights + [Flight(sorted, s.buffer.users, [], batches, Open)])
  }

  /** One batch transaction of flush i commits. */
  ghost predicate Commit(s: State, s': State, i: nat) {
    && i < |s.flights| && s.flights[i].status.Open? && s.flights[i].left != []
    && var f := s.flights[i];
       && BatchCommitted(s.tables, s'.tables, f.left[0], f.users)
       && s' == s.(tables := s'.tables,
                   flights := s.flights[i := f.(stored := f.stored + f.left[0], left := f.left[1..])])
  }

  /** Flush i gives up: its batch failed, or the process stopped. */
  ghost predicate Fail(s: State, s': State, i: nat) {
    && i < |s.flights| && s.flights[i].status.Open?
    && s' == s.(flights := s.flights[i := s.flights[i].(status := Failed)])
  }

  /** Flush i has stored all its batches and counts them. */
  ghost predicate Finish(s: State, s': State, i: nat) {
    && i < |s.flights| && s.flights[i].status.Open? && s.flights[i].left == []
    && s' == s.(flights := s.flights[i := s.flights[i].(status := Finished)],
                buffer := s.buffer.(flushed := s.buffer.flushed + |s.flights[i].events|))
  }

  ghost predicate Next(s: State, s': State) {
    || (exists e, usr :: Add(s, s', e, usr))
    || (exists sorted, batches, size :: Take(s, s', sorted, batches, size))
    || (exists i: nat :: Commit(s, s', i) || Fail(s, s', i) || Finish(s, s', i))
  }

  // ---- Invariants ----

  /** All events in the hands of flushes, finished or not. */
  ghost function Taken(flights: seq<Flight>): multiset<Event> {
    if flights == [] then multiset{}
    else Taken(flights[..|flights| - 1]) + multiset(flights[|flights| - 1].events)
  }

  ghost function FinishedCount(flights: seq<Flight>): nat {
    if flights == [] then 0
    else
      var f := flights[|flights| - 1];
      FinishedCount(flights[..|flights| - 1]) + (if f.status.Finished? then |f.events| else 0)
  }

  ghost function AddedWithKey(added: seq<Event>, key: string): nat {
    if added == [] then 0
    else
      var e := added[|added| - 1];
      AddedWithKey(added[..|added| - 1], key) + (if TypeKey(e.key.org, e.key.repo, e.key.eventType) == key then 1 else 0)
  }

  /** Added events are in the buffer or in exactly one flush; counters agree with history. */
  ghost predicate Conserved(s: State) {
    && multiset(s.added) == multiset(s.buffer.list) + Taken(s.flights)
    && (forall key :: Count(s.buffer.counts, key) == AddedWithKey(s.added, key))
    && s.buffer.flushed == FinishedCount(s.flights)
  }

  ghost predicate FlightOk(f: Flight, tables: Tables) {
    && f.events == f.stored + Concat(f.left)
    && UsersCover(f.events, f.users) && KeyedByLogin(f.users)
    && (forall e :: e in f.stored ==> e.key in tables.events)
    && (f.status.Finished? ==> f.left == [])
  }

  /** Whoever is buffered or taken has its user beside it; stored rows have their developers. */
  ghost predicate Covered(s: State) {
    && UsersCover(s.buffer.list, s.buffer.users) && KeyedByLogin(s.buffer.users)
    && (forall i :: 0 <= i < |s.flights| ==> FlightOk(s.flights[i], s.tables))
    && ReferencesHold(s.tables)
  }

  ghost predicate HasKey(events: seq<Event>, k: EventKey) {
    exists e :: e in events && e.key == k
  }

  /** The event table grew from t0 by keys of added events only. */
  ghost predicate OnlyAdded(s: State, t0: Tables) {
    && (forall k :: k in t0.events ==> k in s.tables.events)
    && (forall k :: k in s.tables.events ==> k in t0.events || HasKey(s.added, k))
    && (forall i, e :: 0 <= i < |s.flights| && e in s.flights[i].events ==> e in s.added)
    && (forall e :: e in s.buffer.list ==> e in s.added)
  }

  ghost predicate Inv(s: State, t0: Tables) {
    Conserved(s) && Covered(s) && OnlyAdded(s, t0)
  }

  // ---- Bookkeeping of the flights ----

  lemma {:induction false} TakenUpdate(flights: seq<Flight>, i: nat, f: Flight)
    requires i < |flights| && f.events == flights[i].events
    ensures Taken(flights[i := f]) == Taken(flights)
  {
    var n := |flights| - 1;
    if i < n {
      TakenUpdate(flights[..n], i, f);
      assert flights[i := f][..n] == flights[..n][i := f];
    } else {
      assert flights[i := f][..n] == flights[..n];
    }
  }

  lemma {:induction false} FinishedUpdate(flights: seq<Flight>, i: nat, f: Flight)
    requires i < |flights| && f.events == flights[i].events && flights[i].status.Open?
    ensures FinishedCount(flights[i := f]) == FinishedCount(flights) + (if f.status.Finished? then |f.events| else 0)
  {
    var n := |flights| - 1;
    if i < n {
      FinishedUpdate(flights[..n], i, f);
      assert flights[i := f][..n] == flights[..n][i := f];
    } else {
      assert flights[i := f][..n] == flights[..n];
    }
  }

  // ---- Each step keeps the invariants ----

  lemma AddKeeps(s: State, s': State, e: Event, usr: User, t0: Tables)
    requires Inv(s, t0) && Add(s, s', e, usr)
    ensures Inv(s', t0)
  {
    AddConserves(s, s', e, usr);
    AddCovers(s, s', e, usr);
    AddOnlyAdds(s, s', e, usr, t0);
  }

  lemma AddCovers(s: State, s': State, e: Event, usr: User)
    requires Covered(s) && Add(s, s', e, usr)
    ensures Covered(s')
  {
    assert s'.flights == s.flights && s'.tables == s.tables;
    assert KeyedByLogin(s'.buffer.users);
  }

  lemma AddOnlyAdds(s: State, s': State, e: Event, usr: User, t0: Tables)
    requires OnlyAdded(s, t0) && Add(s, s', e, usr)
    ensures OnlyAdded(s', t0)
  {
    forall k | HasKey(s.added, k)
      ensures HasKey(s'.added, k)
    {
      var a :| a in s.added && a.key == k;
      assert a in s'.added;
    }
  }

  lemma AddConserves(s: State, s': State, e: Event, usr: User)
    requires Conserved(s) && Add(s, s', e, usr)
    ensures Conserved(s')
  {
    assert s'.added[..|s'.added| - 1] == s.added;
    assert multiset(s'.added) == multiset(s.added) + multiset{e};
    assert multiset(s'.buffer.list) == multiset(s.buffer.list) + multiset{e};
  }

  lemma TakeKeeps(s: State, s': State, sorted: seq<Event>, batches: seq<seq<Event>>, size: int, t0: Tables)
    requires Inv(s, t0) && Take(s, s', sorted, batches, size)
    ensures Inv(s', t0)
  {
    TakeConserves(s, s', sorted, batches, size);
    TakeCovers(s, s', sorted, batches, size);
    TakeOnlyAdds(s, s', sorted, batches, size, t0);
  }

  lemma TakeConserves(s: State, s': State, sorted: seq<Event>, batches: seq<seq<Event>>, size: int)
    requires Conserved(s) && Take(s, s', sorted, batches, size)
    ensures Conserved(s')
  {
    assert s'.flights[..|s.flights|] == s.flights;
    hide IsSplit;
  }

  lemma TakeOnlyAdds(s: State, s': State, sorted: seq<Event>, batches: seq<seq<Event>>, size: int, t0: Tables)
    requires OnlyAdded(s, t0) && Take(s, s', sorted, batches, size)
    ensures OnlyAdded(s', t0)
  {
    SameMembers(sorted, s.buffer.list);
    hide IsSplit, IsSortOf;
    forall i, e | 0 <= i < |s'.flights| && e in s'.flights[i].events
      ensures e in s'.added
    {
      assert i < |s.flights| ==> s'.flights[i] == s.flights[i];
    }
  }

  lemma TakeCovers(s: State, s': State, sorted: seq<Event>, batches: seq<seq<Event>>, size: int)
    requires Covered(s) && Take(s, s', sorted, batches, size)
    ensures Covered(s')
  {
    SortCovered(sorted, s.buffer.list, s.buffer.users);
    SameMembers(sorted, s.buffer.list);
    assert sorted == [] + Concat(batches) by {
      assert sorted != [];
    }
    hide IsSortOf, IsSplit;
    forall i | 0 <= i < |s'.flights|
      ensures FlightOk(s'.flights[i], s'.tables)
    {
      assert i < |s.flights| ==> s'.flights[i] == s.flights[i];
    }
  }

  lemma FailKeeps(s: State, s': State, i: nat, t0: Tables)
    requires Inv(s, t0) && Fail(s, s', i)
    ensures Inv(s', t0)
  {
    TakenUpdate(s.flights, i, s'.flights[i]);
    FinishedUpdate(s.flights, i, s'.flights[i]);
  }

  lemma FinishKeeps(s: State, s': State, i: nat, t0: Tables)
    requires Inv(s, t0) && Finish(s, s', i)
    ensures Inv(s', t0)
  {
    TakenUpdate(s.flights, i, s'.flights[i]);
    FinishedUpdate(s.flights, i, s'.flights[i]);
  }

  /** The batch at the head of a flight has all its users in the flight's snapshot. */
  lemma HeadCovered(f: Flight)
    requires f.left != [] && f.events == f.stored + Concat(f.left) && UsersCover(f.events, f.users)
    ensures Names(f.left[0]) <= f.users.Keys
    ensures forall e :: e in f.left[0] ==> e in f.events
    ensures f.events == (f.stored + f.left[0]) + Concat(f.left[1..])
  {
    assert f.events == (f.stored + f.left[0]) + Concat(f.left[1..]);
    forall j | 0 <= j < |f.left[0]|
      ensures f.left[0][j].key.username in f.users && f.left[0][j] in f.events
    {
      assert f.events[|f.stored| + j] == f.left[0][j];
    }
  }

  lemma CommitTables(t: Tables, t': Tables, batch: seq<Event>, users: map<string, User>)
    requires BatchCommitted(t, t', batch, users) && ReferencesHold(t)
    ensures ReferencesHold(t')
    ensures forall k :: k in t'.events <==> k in t.events || HasKey(batch, k)
  {
    var devs, order :| Committed(t, t', batch, users, devs, order);
    forall k
      ensures k in t'.events <==> k in t.events || HasKey(batch, k)
      ensures k in t'.events ==> k.username in t'.developers
    {
      RowAfterUpserts(t.events, batch, k);
      LastWithMember(batch, k);
      UpsertedNames(t.developers, devs, k.username);
      if HasKey(batch, k) {
        var e :| e in batch && e.key == k;
        assert UsernamesIn(batch, t'.developers);
      }
    }
  }

  lemma {:induction false} LastWithMember(batch: seq<Event>, k: EventKey)
    ensures LastWith(batch, k).Some? <==> HasKey(batch, k)
    ensures HasKey(batch, k) ==> k.username in Names(batch)
  {
    if batch != [] {
      var n := |batch| - 1;
      LastWithMember(batch[..n], k);
      assert batch == batch[..n] + [batch[n]];
      assert batch[n] in batch;
      if HasKey(batch[..n], k) {
        var e :| e in batch[..n] && e.key == k;
        assert e in batch;
      }
    }
  }

  lemma CommitKeeps(s: State, s': State, i: nat, t0: Tables)
    requires Inv(s, t0) && Commit(s, s', i)
    ensures Inv(s', t0)
  {
    var f, f' := s.flights[i], s'.flights[i];
    TakenUpdate(s.flights, i, f');
    FinishedUpdate(s.flights, i, f');
    HeadCovered(f);
    CommitTables(s.tables, s'.tables, f.left[0], f.users);
    forall k | k in s'.tables.events
      ensures k in t0.events || HasKey(s'.added, k)
    {
      if HasKey(f.left[0], k) {
        var e :| e in f.left[0] && e.key == k;
        assert e in s.added;
      }
    }
    forall e | e in f'.stored
      ensures e.key in s'.tables.events
    {
      assert e in f.stored || HasKey(f.left[0], e.key);
    }
    forall j | 0 <= j < |s'.flights|
      ensures FlightOk(s'.flights[j], s'.tables)
    {
      assert j != i ==> s'.flights[j] == s.flights[j];
    }
  }

  lemma StepKeepsInv(s: State, s': State, t0: Tables)
    requires Inv(s, t0) && Next(s, s')
    ensures Inv(s', t0)
  {
    if e, usr :| Add(s, s', e, usr) {
      AddKeeps(s, s', e, usr, t0);
    } else if sorted, batches, size :| Take(s, s', sorted, batches, size) {
      TakeKeeps(s, s', sorted, batches, size, t0);
    } else {
      var i: nat :| Commit(s, s', i) || Fail(s, s', i) || Finish(s, s', i);
      if Commit(s, s', i) {
        CommitKeeps(s, s', i, t0);
      } else if Fail(s, s', i) {
        FailKeeps(s, s', i, t0);
      } else {
        FinishKeeps(s, s', i, t0);
      }
    }
  }

  ghost predicate IsRun(run: seq<State>, t0: Tables) {
    && |run| > 0 && Init(run[0], t0)
    && forall n :: 0 <= n < |run| - 1 ==> Next(run[n], run[n + 1])
  }

  lemma {:induction false} RunKeepsInv(run: seq<State>, t0: Tables)
    requires IsRun(run, t0)
    ensures Inv(run[|run| - 1], t0)
  {
    var n := |run| - 1;
    if n == 0 {
      assert Concat<Event>([]) == [];
    } else {
      RunKeepsInv(run[..n], t0);
      assert Next(run[n - 1], run[n]);
      StepKeepsInv(run[n - 1], run[n], t0);
    }
  }

  // ---- What every run guarantees ----

  /**
   * In every reachable state the next batch of any open flush comes with the users
   * of all its events; the foreign key lets it through exactly when each login is
   * stored or is the trimmed form of one in the batch.
   */
  lemma NextBatchAcceptedIff(run: seq<State>, t0: Tables, i: nat, devs: seq<Developer>, order: seq<string>)
    requires IsRun(run, t0) && HasNextBatch(run[|run| - 1], i)
    requires var f := run[|run| - 1].flights[i];
             IsDeveloperOrder(devs, order, Names(f.left[0]) * f.users.Keys, f.users)
    ensures var s := run[|run| - 1]; var f := s.flights[i];
            && Names(f.left[0]) <= f.users.Keys
            && (UsernamesIn(f.left[0], UpsertDevelopers(s.tables.developers, devs))
                <==> LoginsCovered(f.left[0], s.tables.developers))
  {
    RunKeepsInv(run, t0);
    hide IsRun;
    var s := run[|run| - 1];
    assert FlightOk(s.flights[i], s.tables);
    HeadCovered(s.flights[i]);
    AcceptedIff(s.tables, s.flights[i].left[0], s.flights[i].users, devs, order);
  }

  ghost predicate HasNextBatch(s: State, i: nat) {
    i < |s.flights| && s.flights[i].status.Open? && s.flights[i].left != []
  }

  /** In a run whose events all have logins that trimming leaves alone, no batch is ever refused. */
  lemma NoBatchRefused(run: seq<State>, t0: Tables, i: nat, devs: seq<Developer>, order: seq<string>)
    requires IsRun(run, t0) && HasNextBatch(run[|run| - 1], i)
    requires forall e :: e in run[|run| - 1].added ==> Trim(e.key.username) == e.key.username
    requires var f := run[|run| - 1].flights[i];
             IsDeveloperOrder(devs, order, Names(f.left[0]) * f.users.Keys, f.users)
    ensures var s := run[|run| - 1]; var f := s.flights[i];
            UsernamesIn(f.left[0], UpsertDevelopers(s.tables.developers, devs))
  {
    NextBatchAcceptedIff(run, t0, i, devs, order);
    RunKeepsInv(run, t0);
    hide IsRun, LoginsCovered, UsernamesIn, IsDeveloperOrder;
    var s := run[|run| - 1];
    var f := s.flights[i];
    assert FlightOk(f, s.tables);
    HeadCovered(f);
    assert forall e :: e in f.left[0] ==> e in s.added;
    CleanLoginsAccepted(f.left[0], s.tables.developers);
  }

  /** Once the buffer is empty and all flushes are finished, exactly the added keys are stored and counted. */
  lemma QuietRunStoredAll(run: seq<State>, t0: Tables)
    requires IsRun(run, t0)
    requires var s := run[|run| - 1];
             s.buffer.list == [] && forall i :: 0 <= i < |s.flights| ==> s.flights[i].status.Finished?
    ensures var s := run[|run| - 1];
            && (forall k :: k in s.tables.events <==> k in t0.events || HasKey(s.added, k))
            && s.buffer.flushed == |s.added|
            && ReferencesHold(s.tables)
  {
    RunKeepsInv(run, t0);
    var s := run[|run| - 1];
    FinishedIsTaken(s.flights);
    assert |multiset(s.added)| == |s.added|;
    forall e | e in s.added
      ensures e.key in s.tables.events
    {
      assert e in multiset(s.added);
      var i := TakenMember(s.flights, e);
      assert FlightOk(s.flights[i], s.tables);
      assert s.flights[i].stored == s.flights[i].events;
    }
  }

  lemma {:induction false} TakenMember(flights: seq<Flight>, e: Event) returns (i: nat)
    requires e in Taken(flights)
    ensures i < |flights| && e in flights[i].events
  {
    var n := |flights| - 1;
    if e in flights[n].events {
      i := n;
    } else {
      assert e !in multiset(flights[n].events);
      i := TakenMember(flights[..n], e);
    }
  }

  lemma {:induction false} FinishedIsTaken(flights: seq<Flight>)
    requires forall i :: 0 <= i < |flights| ==> flights[i].status.Finished?
    ensures FinishedCount(flights) == |Taken(flights)|
  {
    if flights != [] {
      var n := |flights| - 1;
      FinishedIsTaken(flights[..n]);
      assert |multiset(flights[n].events)| == |flights[n].events|;
    }
  }

  /** Added events of one type. */
  function AddedOfType(added: seq<Event>, eventType: string): nat {
    if added == [] then 0
    else AddedOfType(added[..|added| - 1], eventType) + (if added[|added| - 1].key.eventType == eventType then 1 else 0)
  }

  lemma TypeKeysTellApart(owner: string, repo: string, x: string, y: string)
    ensures TypeKey(owner, repo, x) == owner + "/" + repo + "/" + y <==> x == y
  {
    var k := |owner| + 1 + |repo| + 1;
    assert TypeKey(owner, repo, x)[k..] == x;
    assert (owner + "/" + repo + "/" + y)[k..] == y;
  }

  lemma {:induction false} KeysCountTypes(added: seq<Event>, owner: string, repo: string, eventType: string)
    requires forall i :: 0 <= i < |added| ==> added[i].key.org == owner && added[i].key.repo == repo
    ensures AddedWithKey(added, owner + "/" + repo + "/" + eventType) == AddedOfType(added, eventType)
  {
    if added != [] {
      var n := |added| - 1;
      KeysCountTypes(added[..n], owner, repo, eventType);
      TypeKeysTellApart(owner, repo, added[n].key.eventType, eventType);
      hide TypeKey;
    }
  }

  /** In every run the counter of a type is the number of events of that type added so far. */
  lemma CountsAreByType(run: seq<State>, t0: Tables, owner: string, repo: string, eventType: string)
    requires IsRun(run, t0)
    requires var added := run[|run| - 1].added;
             forall i :: 0 <= i < |added| ==> added[i].key.org == owner && added[i].key.repo == repo
    ensures var s := run[|run| - 1]; var key := owner + "/" + repo + "/" + eventType;
            (if key in s.buffer.counts then s.buffer.counts[key] else 0) == AddedOfType(s.added, eventType)
  {
    RunKeepsInv(run, t0);
    hide IsRun;
    var s := run[|run| - 1];
    KeysCountTypes(s.added, owner, repo, eventType);
    assert Count(s.buffer.counts, owner + "/" + repo + "/" + eventType)
        == AddedWithKey(s.added, owner + "/" + repo + "/" + eventType);
  }

  // ---- What the rows hold ----

  ghost predicate HasValue<T(!new)>(events: seq<Event>, k: EventKey, column: Details -> Option<T>, v: Option<T>) {
    exists e :: e in events && e.key == k && column(e.details) == v
  }

  ghost predicate StoredByFlight(s: State, k: EventKey) {
    exists i :: 0 <= i < |s.flights| && HasKey(s.flights[i].stored, k)
  }

  /** A row's text is that of an added event with its key, or untouched since t0. */
  ghost predicate TextOk(s: State, t0: Tables, k: EventKey) {
    k in s.tables.events ==>
      || HasText(s.added, k, s.tables.events[k].text)
      || (k in t0.events && s.tables.events[k].text == t0.events[k].text && !StoredByFlight(s, k))
  }

  /** A nullable column holds what an added event with its key brought, or what t0 had. */
  ghost predicate ValueOk<T(!new)>(s: State, t0: Tables, k: EventKey, column: Details -> Option<T>) {
    var v := Stored(s.tables.events, k, column);
    v == Stored(t0.events, k, column) || HasValue(s.added, k, column, v)
  }

  lemma {:induction false} LastNonNullIn<T(!new)>(batch: seq<Event>, k: EventKey, column: Details -> Option<T>)
    ensures LastNonNull(batch, k, column).Some? ==> HasValue(batch, k, column, LastNonNull(batch, k, column))
  {
    if batch != [] {
      var n := |batch| - 1;
      LastNonNullIn(batch[..n], k, column);
      assert batch == batch[..n] + [batch[n]];
      assert batch[n] in batch;
    }
  }

  /** The tables of a committed batch, row by row. */
  lemma CommitRows(s: State, s': State, i: nat, t0: Tables)
    requires Inv(s, t0) && Commit(s, s', i)
    ensures s'.tables.events == UpsertAll(s.tables.events, s.flights[i].left[0])
    ensures forall e :: e in s.flights[i].left[0] ==> e in s'.added
    ensures s'.flights[i].stored == s.flights[i].stored + s.flights[i].left[0]
  {
    var f := s.flights[i];
    HeadCovered(f);
    var devs, order :| Committed(s.tables, s'.tables, f.left[0], f.users, devs, order);
  }

  lemma CommitKeepsText(s: State, s': State, i: nat, t0: Tables, k: EventKey)
    requires Inv(s, t0) && Commit(s, s', i) && TextOk(s, t0, k)
    ensures TextOk(s', t0, k)
  {
    CommitRows(s, s', i, t0);
    hide Inv;
    var batch := s.flights[i].left[0];
    RowAfterUpserts(s.tables.events, batch, k);
    LastWithIn(batch, k);
    LastWithMember(batch, k);
    if LastWith(batch, k).Some? {
      assert LastWith(batch, k).value in s'.added;
    } else if k in s'.tables.events && StoredByFlight(s', k) {
      var j :| 0 <= j < |s'.flights| && HasKey(s'.flights[j].stored, k);
      if j == i {
        var e :| e in s'.flights[i].stored && e.key == k;
        assert e in batch ==> HasKey(batch, k);
        assert HasKey(s.flights[i].stored, k);
      } else {
        assert HasKey(s.flights[j].stored, k);
      }
      assert StoredByFlight(s, k);
    }
  }

  lemma CommitKeepsValue<T(!new)>(s: State, s': State, i: nat, t0: Tables, k: EventKey, column: Details -> Option<T>)
    requires Inv(s, t0) && Commit(s, s', i) && Coalesces(column) && ValueOk(s, t0, k, column)
    ensures ValueOk(s', t0, k, column)
  {
    CommitRows(s, s', i, t0);
    hide Inv;
    var batch := s.flights[i].left[0];
    ColumnAfterUpserts(s.tables.events, batch, k, column);
    LastNonNullIn(batch, k, column);
    var v := Stored(s'.tables.events, k, column);
    if LastNonNull(batch, k, column).Some? {
      var e :| e in batch && e.key == k && column(e.details) == v;
      assert e in s'.added;
    } else {
      assert v == Stored(s.tables.events, k, column);
    }
  }

  /** Steps other than a commit leave the tables and what flushes have stored. */
  lemma QuietStep(s: State, s': State, k: EventKey)
    requires Next(s, s') && !(exists i: nat :: Commit(s, s', i))
    ensures s'.tables == s.tables && s.added <= s'.added
    ensures StoredByFlight(s', k) ==> StoredByFlight(s, k)
  {
    if StoredByFlight(s', k) {
      var j :| 0 <= j < |s'.flights| && HasKey(s'.flights[j].stored, k);
      assert j < |s.flights| && s'.flights[j].stored == s.flights[j].stored;
    }
  }

  lemma StepKeepsText(s: State, s': State, t0: Tables, k: EventKey)
    requires Inv(s, t0) && Next(s, s') && TextOk(s, t0, k)
    ensures TextOk(s', t0, k)
  {
    if i: nat :| Commit(s, s', i) {
      CommitKeepsText(s, s', i, t0, k);
    } else {
      QuietStep(s, s', k);
      hide Next, Inv;
      assert forall e :: e in s.added ==> e in s'.added;
    }
  }

  lemma StepKeepsValue<T(!new)>(s: State, s': State, t0: Tables, k: EventKey, column: Details -> Option<T>)
    requires Inv(s, t0) && Next(s, s') && Coalesces(column) && ValueOk(s, t0, k, column)
    ensures ValueOk(s', t0, k, column)
  {
    if i: nat :| Commit(s, s', i) {
      CommitKeepsValue(s, s', i, t0, k, column);
    } else {
      QuietStep(s, s', k);
      hide Next, Inv;
      assert forall e :: e in s.added ==> e in s'.added;
    }
  }

  /**
   * In every run each nullable column of each row holds a value that an added
   * event with its key brought, or the one it had at the start.
   */
  lemma {:induction false} ValuesComeFromEvents<T(!new)>(run: seq<State>, t0: Tables, k: EventKey, column: Details -> Option<T>)
    requires IsRun(run, t0) && Coalesces(column)
    ensures ValueOk(run[|run| - 1], t0, k, column)
  {
    var n := |run| - 1;
    if n > 0 {
      ValuesComeFromEvents(run[..n], t0, k, column);
      RunKeepsInv(run[..n], t0);
      assert Next(run[n - 1], run[n]);
      StepKeepsValue(run[n - 1], run[n], t0, k, column);
    }
  }

  lemma {:induction false} TextsComeFromEvents(run: seq<State>, t0: Tables, k: EventKey)
    requires IsRun(run, t0)
    ensures TextOk(run[|run| - 1], t0, k)
  {
    var n := |run| - 1;
    if n > 0 {
      TextsComeFromEvents(run[..n], t0, k);
      RunKeepsInv(run[..n], t0);
      assert Next(run[n - 1], run[n]);
      StepKeepsText(run[n - 1], run[n], t0, k);
    }
  }

  /** After a quiet run the row of an added key carries the text of an added event with that key; other rows are as before. */
  lemma QuietRunTexts(run: seq<State>, t0: Tables, k: EventKey)
    requires IsRun(run, t0)
    requires var s := run[|run| - 1];
             s.buffer.list == [] && forall i :: 0 <= i < |s.flights| ==> s.flights[i].status.Finished?
    ensures var s := run[|run| - 1];
            && (HasKey(s.added, k) ==> k in s.tables.events && HasText(s.added, k, s.tables.events[k].text))
            && (!HasKey(s.added, k) && k in t0.events ==>
                  k in s.tables.events && s.tables.events[k].text == t0.events[k].text)
  {
    var s := run[|run| - 1];
    RunKeepsInv(run, t0);
    TextsComeFromEvents(run, t0, k);
    QuietRunStoredAll(run, t0);
    if HasKey(s.added, k) {
      var e :| e in s.added && e.key == k;
      assert e in multiset(s.added);
      var i := TakenMember(s.flights, e);
      assert FlightOk(s.flights[i], s.tables);
      assert s.flights[i].stored == s.flights[i].events;
      assert HasKey(s.flights[i].stored, k);
    }
  }
}
