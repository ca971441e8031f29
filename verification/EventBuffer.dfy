// The buffer that the event importers share, and the flush that empties it.
module EventBuffer {
  import opened Options
  import opened Events
  import opened Developers
  import opened EventImporter
  import Backfill

  const IMPORT_BATCH_SIZE: nat := 500

  /** What the importer's fields hold. */
  datatype Buffer = Buffer(list: seq<Event>, counts: map<string, nat>, users: map<string, User>, flushed: nat)

  function Count(counts: map<string, nat>, key: string): nat {
    if key in counts then counts[key] else 0
  }

  function TypeKey(owner: string, repo: string, eventType: string): string {
    owner + "/" + repo + "/" + eventType
  }

  /** One event and its user added, under the lock. */
  function AddTo(b: Buffer, e: Event, usr: User): Buffer {
    var key := TypeKey(e.key.org, e.key.repo, e.key.eventType);
    Buffer(b.list + [e], b.counts[key := Count(b.counts, key) + 1], b.users[e.key.username := usr], b.flushed)
  }

  /** What a flush did: the order it chose, its batches, the tables after each commit, the state rows written. */
  datatype FlushRecord = FlushRecord(sorted: seq<Event>, batches: seq<seq<Event>>, trace: seq<Tables>, written: seq<string>)

  ghost predicate BatchCommitted(t: Tables, t': Tables, batch: seq<Event>, users: map<string, User>) {
    exists devs, order :: Committed(t, t', batch, users, devs, order)
  }

  ghost predicate CommitTrace(trace: seq<Tables>, batches: seq<seq<Event>>, users: map<string, User>) {
    && 1 <= |trace| <= |batches| + 1
    && forall i :: 0 <= i < |trace| - 1 ==> BatchCommitted(trace[i], trace[i + 1], batches[i], users)
  }

  /** The state rows are written only when all batches are stored, and maybe not all of them. */
  ghost predicate StatesEffect(rows: Backfill.Rows, rows': Backfill.Rows, states: Backfill.States, ok: bool, r: FlushRecord) {
    && (forall i :: 0 <= i < |r.written| ==> r.written[i] in states)
    && rows' == Backfill.RowsWith(rows, states, r.written)
    && (|r.trace| <= |r.batches| ==> r.written == [])
    && (ok <==> |r.trace| == |r.batches| + 1 && forall t :: t in states ==> t in r.written)
  }

  /** A flush that took b to b' and the tables from t to t'; it committed |trace| - 1 batches. */
  ghost predicate FlushEffect(b: Buffer, b': Buffer, t: Tables, t': Tables, rows: Backfill.Rows, rows': Backfill.Rows,
                              states: Backfill.States, ok: bool, size: int, r: FlushRecord)
  {
    if b.list == [] then ok && b' == b && t' == t && rows' == rows
    else
      && IsSortOf(r.sorted, b.list)
      && IsSplit(r.batches, r.sorted, size)
      && CommitTrace(r.trace, r.batches, b.users)
      && r.trace[0] == t && r.trace[|r.trace| - 1] == t'
      && StatesEffect(rows, rows', states, ok, r)
      && b' == b.(list := [], flushed := b.flushed + (if ok then |b.list| else 0))
  }

  class Importer {
    const owner: string
    const repo: string
    var list: seq<Event>
    var counts: map<string, nat>
    var users: map<string, User>
    var state: Backfill.States
    var flushed: nat

    /** state is what loadState found. */
    constructor (owner: string, repo: string, state: Backfill.States)
      ensures this.owner == owner && this.repo == repo && this.state == state
      ensures Contents() == Buffer([], map[], map[], 0)
    {
      this.owner, this.repo, this.state := owner, repo, state;
      list, counts, users, flushed := [], map[], map[], 0;
    }

    ghost function Contents(): Buffer
      reads this
    {
      Buffer(list, counts, users, flushed)
    }

    /** The event that add builds for a user. */
    function EventOf(eType: string, usr: User, date: string, text: Text, details: Details): Event {
      Event(EventKey(owner, repo, usr.login, eType, date), text, details)
    }

    /** The critical section of add; the answer says whether the buffer is due for a flush. */
    method Append(item: Event, usr: User) returns (shouldFlush: bool)
      requires item.key.org == owner && item.key.repo == repo
      modifies this
      ensures state == old(state)
      ensures Contents() == AddTo(old(Contents()), item, usr)
      ensures shouldFlush <==> |Contents().list| >= IMPORT_BATCH_SIZE
    {
      list := list + [item];
      var key := TypeKey(owner, repo, item.key.eventType);
      counts := counts[key := Count(counts, key) + 1];
      users := users[item.key.username := usr];
      shouldFlush := |list| >= IMPORT_BATCH_SIZE;
    }

    /** An importer got to a page; types without a state are passed over. */
    method UpdatePage(eventType: string, page: nat)
      modifies this`state
      ensures state.Keys == old(state).Keys
      ensures forall t :: t in state ==>
                state[t] == if t == eventType then old(state)[t].(page := page) else old(state)[t]
    {
      if eventType in state {
        state := state[eventType := state[eventType].(page := page)];
      }
    }

    /**
     * Takes the buffer and stores it batch by batch, then the states. Batch number
     * failAt and state number stateFailAt fail in the database.
     */
    method Flush(store: Store, rows: Backfill.StateStore, batchSize: int, failAt: nat, stateFailAt: nat)
      returns (ok: bool, ghost r: FlushRecord)
      requires batchSize >= 1
      modifies this, store, rows
      ensures FlushEffect(old(Contents()), Contents(), old(store.tables), store.tables, old(rows.rows), rows.rows,
                          old(state), ok, batchSize, r)
      ensures state == old(state)
      ensures old(list) != [] ==> (failAt < |r.batches| ==> !ok && rows.rows == old(rows.rows))
      ensures list == [] && counts == old(counts) && users == old(users)
      ensures flushed == old(flushed) + (if ok then |old(list)| else 0)
    {
      r := FlushRecord([], [], [store.tables], []);
      if |list| == 0 {
        return true, r;
      }
      var events := list;
      list := [];
      var snapshot, states := users, state;

      var sorted := SortEvents(events);
      var batches := SplitIntoBatches(sorted, batchSize);
      assert sorted != [] by {
        assert |multiset(sorted)| == |multiset(events)|;
      }
      ghost var trace := [store.tables];
      for i := 0 to |batches|
        invariant |trace| == i + 1 && CommitTrace(trace, batches, snapshot)
        invariant trace[0] == old(store.tables) && trace[i] == store.tables
        invariant i <= failAt && rows.rows == old(rows.rows)
        invariant Contents() == old(Contents()).(list := []) && users == snapshot && state == old(state)
      {
        ghost var before := store.tables;
        var stored, devs, order := FlushBatch(store, batches[i], snapshot, i == failAt);
        if !stored {
          r := FlushRecord(sorted, batches, trace, []);
          return false, r;
        }
        assert BatchCommitted(before, store.tables, batches[i], snapshot);
        trace := trace + [store.tables];
      }
      ghost var written;
      ok, written := rows.SaveStates(states, stateFailAt);
      r := FlushRecord(sorted, batches, trace, written);
      if ok {
        flushed := flushed + |events|;
      }
    }

    /** An event without a user is dropped; a full buffer is flushed at once. */
    method Add(store: Store, rows: Backfill.StateStore, eType: string, usr: Option<User>, date: string, text: Text,
               details: Details, batchSize: int, failAt: nat, stateFailAt: nat) returns (ok: bool, ghost r: FlushRecord)
      requires batchSize >= 1
      modifies this, store, rows
      ensures state == old(state)
      ensures usr.None? || usr.value.login == "" ==>
                ok && Contents() == old(Contents()) && store.tables == old(store.tables) && rows.rows == old(rows.rows)
      ensures usr.Some? && usr.value.login != "" ==>
                var login, typeKey := usr.value.login, owner + "/" + repo + "/" + eType;
                var b := Buffer(
                  old(list) + [Event(EventKey(owner, repo, login, eType, date), text, details)],
                  old(counts)[typeKey := if typeKey in old(counts) then old(counts)[typeKey] + 1 else 1],
                  old(users)[login := usr.value], old(flushed));
                if |b.list| < 500
                then ok && Contents() == b && store.tables == old(store.tables) && rows.rows == old(rows.rows)
                else FlushEffect(b, Contents(), old(store.tables), store.tables, old(rows.rows), rows.rows,
                                 old(state), ok, batchSize, r)
    {
      ok, r := true, FlushRecord([], [], [], []);
      if usr.None? || usr.value.login == "" {
        return;
      }
      var shouldFlush := Append(EventOf(eType, usr.value, date, text, details), usr.value);
      if shouldFlush {
        ok, r := Flush(store, rows, batchSize, failAt, stateFailAt);
      }
    }
  }

  // ---- A flush in one thread ----

  lemma BatchStep(t: Tables, t': Tables, batch: seq<Event>, users: map<string, User>)
    requires BatchCommitted(t, t', batch, users) && Names(batch) <= users.Keys && AgreeingUsers(users)
    ensures t' == CommitBatch(t, batch, users)
  {
    var devs, order :| Committed(t, t', batch, users, devs, order);
    CommittedIsCommitBatch(t, t', batch, users, devs, order);
  }

  lemma TraceTail(trace: seq<Tables>, batches: seq<seq<Event>>, users: map<string, User>)
    requires CommitTrace(trace, batches, users) && |trace| > 1
    ensures BatchCommitted(trace[0], trace[1], batches[0], users) && CommitTrace(trace[1..], batches[1..], users)
  {
    forall i | 0 <= i < |trace[1..]| - 1
      ensures BatchCommitted(trace[1..][i], trace[1..][i + 1], batches[1..][i], users)
    {
      assert BatchCommitted(trace[i + 1], trace[i + 2], batches[i + 1], users);
    }
  }

  lemma CommitAllStep(t: Tables, batches: seq<seq<Event>>, k: nat, users: map<string, User>)
    requires 0 < k <= |batches| && Names(batches[0]) <= users.Keys && Names(Concat(batches[1..][..k - 1])) <= users.Keys
    ensures Names(Concat(batches[..k])) <= users.Keys
    ensures CommitAll(t, batches[..k], users) == CommitAll(CommitBatch(t, batches[0], users), batches[1..][..k - 1], users)
  {
    assert batches[..k][1..] == batches[1..][..k - 1] && batches[..k][0] == batches[0];
    NamesAppend(batches[0], Concat(batches[..k][1..]));
  }

  lemma {:induction false} TraceIsCommitAll(trace: seq<Tables>, batches: seq<seq<Event>>, users: map<string, User>)
    requires CommitTrace(trace, batches, users)
    requires Names(Concat(batches)) <= users.Keys && AgreeingUsers(users)
    ensures Names(Concat(batches[..|trace| - 1])) <= users.Keys
    ensures trace[|trace| - 1] == CommitAll(trace[0], batches[..|trace| - 1], users)
    decreases |batches|
  {
    if |trace| > 1 {
      TraceTail(trace, batches, users);
      NamesAppend(batches[0], Concat(batches[1..]));
      hide CommitTrace, BatchCommitted, AgreeingUsers, CommitBatch, CommitAll;
      BatchStep(trace[0], trace[1], batches[0], users);
      TraceIsCommitAll(trace[1..], batches[1..], users);
      CommitAllStep(trace[0], batches, |trace| - 1, users);
    } else {
      assert Names([]) == {};
    }
  }

  /** Every event in the buffer has its user in the snapshot, under its own login. */
  ghost predicate UsersCover(events: seq<Event>, users: map<string, User>) {
    forall i :: 0 <= i < |events| ==> events[i].key.username in users
  }

  /**
   * A flush that reports success stored exactly the buffered events, in its sorted
   * order, and then the state of every event type.
   */
  lemma FlushStoresBuffer(b: Buffer, b': Buffer, t: Tables, t': Tables, rows: Backfill.Rows, rows': Backfill.Rows,
                          states: Backfill.States, size: int, r: FlushRecord)
    requires FlushEffect(b, b', t, t', rows, rows', states, true, size, r) && size >= 1 && b.list != []
    requires UsersCover(b.list, b.users) && AgreeingUsers(b.users) && Backfill.KeyedByType(states)
    ensures Names(r.sorted) <= b.users.Keys
    ensures t' == CommitBatch(t, r.sorted, b.users)
    ensures forall eventType :: eventType in states ==> Backfill.RowOf(rows', eventType) == Some(states[eventType])
  {
    SortCovered(r.sorted, b.list, b.users);
    TraceIsCommitAll(r.trace, r.batches, b.users);
    assert r.batches[..|r.trace| - 1] == r.batches;
    BatchingInvisible(t, r.batches, b.users);
    forall eventType | eventType in states
      ensures Backfill.RowOf(rows', eventType) == Some(states[eventType])
    {
      Backfill.RowsHoldStates(rows, states, r.written, eventType);
    }
  }

  /** Some event of the sequence has this key and this text. */
  ghost predicate HasText(events: seq<Event>, k: EventKey, text: Text) {
    exists e :: e in events && e.key == k && e.text == text
  }

  /** Every buffered event is then in the table under its own key, with the text of a buffered event of that key. */
  lemma FlushStoresEvents(b: Buffer, b': Buffer, t: Tables, t': Tables, rows: Backfill.Rows, rows': Backfill.Rows,
                          states: Backfill.States, size: int, r: FlushRecord, e: Event)
    requires FlushEffect(b, b', t, t', rows, rows', states, true, size, r) && size >= 1 && e in b.list
    requires UsersCover(b.list, b.users) && AgreeingUsers(b.users) && Backfill.KeyedByType(states)
    ensures e.key in t'.events && HasText(b.list, e.key, t'.events[e.key].text)
  {
    FlushStoresBuffer(b, b', t, t', rows, rows', states, size, r);
    SameMembers(r.sorted, b.list);
    hide FlushEffect, AgreeingUsers;
    RowAfterUpserts(t.events, r.sorted, e.key);
    LastWithIn(r.sorted, e.key);
    assert e in r.sorted;
    assert LastWith(r.sorted, e.key).value in b.list;
  }

  lemma SortCovered(sorted: seq<Event>, list: seq<Event>, users: map<string, User>)
    requires multiset(sorted) == multiset(list) && UsersCover(list, users)
    ensures UsersCover(sorted, users) && Names(sorted) <= users.Keys && |sorted| == |list|
  {
    SameMembers(sorted, list);
    forall i | 0 <= i < |sorted|
      ensures sorted[i].key.username in users
    {
      assert sorted[i] in sorted && sorted[i] in list;
      var j :| 0 <= j < |list| && list[j] == sorted[i];
    }
  }

  lemma SameMembers(a: seq<Event>, b: seq<Event>)
    requires multiset(a) == multiset(b)
    ensures forall e :: e in a <==> e in b
    ensures |a| == |b|
  {
    assert forall e :: e in a <==> e in multiset(a);
    assert |multiset(a)| == |a| && |multiset(b)| == |b|;
  }
}
