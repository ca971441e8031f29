// One batch transaction: developers first, then events; and what crashes between
// batches and full replays leave in the tables.
module EventImporter {
  import opened Events
  import opened Developers
  import opened EventLocks

  datatype Tables = Tables(developers: DeveloperTable, events: EventTable)

  /** Each event row refers to a developer row. */
  ghost predicate ReferencesHold(t: Tables) {
    forall k :: k in t.events ==> k.username in t.developers
  }

  ghost predicate UsernamesIn(batch: seq<Event>, developers: DeveloperTable) {
    forall i :: 0 <= i < |batch| ==> batch[i].key.username in developers
  }

  /** One batch transaction took t to t', having written devs before the events. */
  ghost predicate Committed(t: Tables, t': Tables, batch: seq<Event>, users: map<string, User>,
                            devs: seq<Developer>, order: seq<string>)
  {
    && IsDeveloperOrder(devs, order, Names(batch) * users.Keys, users)
    && t'.developers == UpsertDevelopers(t.developers, devs)
    && UsernamesIn(batch, t'.developers)
    && t'.events == UpsertAll(t.events, batch)
  }

  class Store {
    var tables: Tables

    constructor (tables: Tables)
      ensures this.tables == tables
    {
      this.tables := tables;
    }
  }

  method WriteDevelopers(t: DeveloperTable, devs: seq<Developer>) returns (t': DeveloperTable)
    ensures t' == UpsertDevelopers(t, devs)
  {
    t' := t;
    for i := 0 to |devs|
      invariant t' == UpsertDevelopers(t, devs[..i])
    {
      assert devs[..i + 1][..i] == devs[..i];
      t' := t'[devs[i].username := Merged(t', devs[i])];
    }
    assert devs[..|devs|] == devs;
  }

  /** Stops at an event whose developer is missing: the foreign key refuses it. */
  method WriteEvents(developers: DeveloperTable, t: EventTable, batch: seq<Event>) returns (ok: bool, t': EventTable)
    ensures ok <==> UsernamesIn(batch, developers)
    ensures ok ==> t' == UpsertAll(t, batch)
  {
    t' := t;
    for i := 0 to |batch|
      invariant UsernamesIn(batch[..i], developers)
      invariant t' == UpsertAll(t, batch[..i])
    {
      if batch[i].key.username !in developers {
        return false, t';
      }
      assert batch[..i + 1][..i] == batch[..i];
      t' := Upsert(t', batch[i]);
    }
    assert batch[..|batch|] == batch;
    ok := true;
  }

  /**
   * One transaction: all of the batch is stored or none of it. It fails on a
   * missing developer or on dbError, which stands for any other failure.
   */
  method FlushBatch(store: Store, batch: seq<Event>, users: map<string, User>, dbError: bool)
    returns (ok: bool, devs: seq<Developer>, order: seq<string>)
    modifies store
    ensures IsDeveloperOrder(devs, order, Names(batch) * users.Keys, users)
    ensures ok <==> !dbError && UsernamesIn(batch, UpsertDevelopers(old(store.tables).developers, devs))
    ensures ok ==> Committed(old(store.tables), store.tables, batch, users, devs, order)
    ensures !ok ==> store.tables == old(store.tables)
  {
    devs, order := BatchDevelopers(batch, users);
    var developers := WriteDevelopers(store.tables.developers, devs);
    var written, events := WriteEvents(developers, store.tables.events, batch);
    ok := written && !dbError;
    if ok {
      store.tables := Tables(developers, events);
    }
  }

  // ---- What a flush leaves in the tables ----

  /** The tables after one batch that commits, when every user is known. */
  ghost function CommitBatch(t: Tables, batch: seq<Event>, users: map<string, User>): Tables
    requires Names(batch) <= users.Keys
  {
    Tables(WithDevelopers(t.developers, Names(batch), users), UpsertAll(t.events, batch))
  }

  lemma CommittedIsCommitBatch(t: Tables, t': Tables, batch: seq<Event>, users: map<string, User>,
                               devs: seq<Developer>, order: seq<string>)
    requires Names(batch) <= users.Keys && AgreeingUsers(users)
    requires Committed(t, t', batch, users, devs, order)
    ensures t' == CommitBatch(t, batch, users)
  {
    assert Names(batch) * users.Keys == Names(batch);
    UpsertsWriteNames(t.developers, devs, order, Names(batch), users);
  }

  // ---- When the foreign key lets a batch through ----

  lemma {:induction false} UpsertedNames(t: DeveloperTable, devs: seq<Developer>, name: string)
    ensures name in UpsertDevelopers(t, devs) <==> name in t || exists i :: 0 <= i < |devs| && devs[i].username == name
  {
    if devs != [] {
      var n := |devs| - 1;
      UpsertedNames(t, devs[..n], name);
      if name in UpsertDevelopers(t, devs) && name !in t && devs[n].username != name {
        var i :| 0 <= i < |devs[..n]| && devs[..n][i].username == name;
        assert devs[i].username == name;
      }
    }
  }

  /** Some login of the batch, trimmed, is this name. */
  ghost predicate TrimsTo(batch: seq<Event>, name: string) {
    exists j :: 0 <= j < |batch| && Trim(batch[j].key.username) == name
  }

  /** The developers of a batch are its logins, trimmed. */
  lemma DeveloperNames(batch: seq<Event>, users: map<string, User>, devs: seq<Developer>, order: seq<string>, name: string)
    requires Names(batch) <= users.Keys && KeyedByLogin(users)
    requires IsDeveloperOrder(devs, order, Names(batch) * users.Keys, users)
    ensures (exists i :: 0 <= i < |devs| && devs[i].username == name) <==> TrimsTo(batch, name)
  {
    assert Names(batch) * users.Keys == Names(batch);
    if i :| 0 <= i < |devs| && devs[i].username == name {
      var j :| 0 <= j < |batch| && batch[j].key.username == order[i];
      assert Trim(batch[j].key.username) == name;
    }
    if TrimsTo(batch, name) {
      var j :| 0 <= j < |batch| && Trim(batch[j].key.username) == name;
      assert batch[j].key.username in Names(batch);
      var i :| 0 <= i < |order| && order[i] == batch[j].key.username;
      assert devs[i].username == name;
    }
  }

  /** Each login is stored as it is, or is what trimming makes of a login in the batch. */
  ghost predicate LoginsCovered(batch: seq<Event>, developers: DeveloperTable) {
    forall i :: 0 <= i < |batch| ==>
      batch[i].key.username in developers || TrimsTo(batch, batch[i].key.username)
  }

  /** The foreign key lets a batch of known users through exactly when its logins are covered. */
  lemma AcceptedIff(t: Tables, batch: seq<Event>, users: map<string, User>, devs: seq<Developer>, order: seq<string>)
    requires Names(batch) <= users.Keys && KeyedByLogin(users)
    requires IsDeveloperOrder(devs, order, Names(batch) * users.Keys, users)
    ensures UsernamesIn(batch, UpsertDevelopers(t.developers, devs)) <==> LoginsCovered(batch, t.developers)
  {
    forall i | 0 <= i < |batch|
      ensures batch[i].key.username in UpsertDevelopers(t.developers, devs) <==>
              batch[i].key.username in t.developers || TrimsTo(batch, batch[i].key.username)
    {
      UpsertedNames(t.developers, devs, batch[i].key.username);
      DeveloperNames(batch, users, devs, order, batch[i].key.username);
    }
  }

  /** So logins that trimming leaves alone are never refused. */
  lemma CleanLoginsAccepted(batch: seq<Event>, developers: DeveloperTable)
    requires forall i :: 0 <= i < |batch| ==> Trim(batch[i].key.username) == batch[i].key.username
    ensures LoginsCovered(batch, developers)
  {
  }

  lemma KnownUsersCommit(t: Tables, batch: seq<Event>, users: map<string, User>,
                         devs: seq<Developer>, order: seq<string>)
    requires Names(batch) <= users.Keys && KeyedByLogin(users)
    requires forall i :: 0 <= i < |batch| ==> Trim(batch[i].key.username) == batch[i].key.username
    requires IsDeveloperOrder(devs, order, Names(batch) * users.Keys, users)
    ensures UsernamesIn(batch, UpsertDevelopers(t.developers, devs))
  {
    AcceptedIff(t, batch, users, devs, order);
    CleanLoginsAccepted(batch, t.developers);
  }

  /** A batch with one event of a login that trimming changes is refused unless that very login is stored. */
  lemma LoneUncleanLoginRefused(t: Tables, e: Event, users: map<string, User>, devs: seq<Developer>, order: seq<string>)
    requires e.key.username in users && KeyedByLogin(users) && Trim(e.key.username) != e.key.username
    requires IsDeveloperOrder(devs, order, Names([e]) * users.Keys, users)
    ensures UsernamesIn([e], UpsertDevelopers(t.developers, devs)) <==> e.key.username in t.developers
  {
    assert Names([e]) <= users.Keys;
    AcceptedIff(t, [e], users, devs, order);
    assert [e][0] == e;
  }

  /** An '@' and an outer space are two such logins: their events are refused by an empty table. */
  lemma AtSignAndSpaceRefused(e: Event, users: map<string, User>, devs: seq<Developer>, order: seq<string>)
    requires e.key.username == "@bob" || e.key.username == " bob"
    requires e.key.username in users && KeyedByLogin(users)
    requires IsDeveloperOrder(devs, order, Names([e]) * users.Keys, users)
    ensures Trim(e.key.username) == "bob"
    ensures !UsernamesIn([e], UpsertDevelopers(map[], devs))
  {
    TrimBob();
    LoneUncleanLoginRefused(Tables(map[], map[]), e, users, devs, order);
  }

  // ---- Locks ----

  function UsernamesOf(devs: seq<Developer>): (names: seq<string>)
    ensures |names| == |devs| && forall i :: 0 <= i < |names| ==> names[i] == devs[i].username
  {
    seq(|devs|, i requires 0 <= i < |devs| => devs[i].username)
  }

  /**
   * A batch transaction asks for its locks, those of its foreign key included, in
   * rising order exactly when every login of the batch is the trimmed form of
   * one: it then writes all the developers its events refer to. Its statements'
   * own locks rise whatever the logins are.
   */
  lemma BatchLocksRiseIff(batch: seq<Event>, users: map<string, User>, devs: seq<Developer>, order: seq<string>)
    requires Names(batch) <= users.Keys && KeyedByLogin(users) && SortedByKey(batch)
    requires IsDeveloperOrder(devs, order, Names(batch) * users.Keys, users)
    ensures SortedNames(UsernamesOf(devs))
    ensures Rising(BatchRows(UsernamesOf(devs), batch)) <==>
              forall i :: 0 <= i < |batch| ==> TrimsTo(batch, batch[i].key.username)
    ensures Rising(BatchRows(UsernamesOf(devs), batch)) ==> OfBatch(BatchRows(UsernamesOf(devs), batch))
    ensures OfBatch(OwnRows(UsernamesOf(devs), batch))
  {
    hide Rising, SortedByKey, TrimsTo, KeyedByLogin, Names;
    SortedUsernames(devs);
    BatchRowsRiseIff(UsernamesOf(devs), batch);
    forall i | 0 <= i < |batch|
      ensures batch[i].key.username in UsernamesOf(devs) <==> TrimsTo(batch, batch[i].key.username)
    {
      NamedIn(devs, batch[i].key.username);
      DeveloperNames(batch, users, devs, order, batch[i].key.username);
    }
    hide BatchRows;
  }

  lemma SortedUsernames(devs: seq<Developer>)
    ensures SortedByUsername(devs) ==> SortedNames(UsernamesOf(devs))
  {
  }

  lemma NamedIn(devs: seq<Developer>, name: string)
    ensures name in UsernamesOf(devs) <==> exists i :: 0 <= i < |devs| && devs[i].username == name
  {
    var names := UsernamesOf(devs);
    assert forall k :: 0 <= k < |devs| ==> names[k] == devs[k].username;
  }

  // ---- Crash and replay ----

  ghost function CommitAll(t: Tables, batches: seq<seq<Event>>, users: map<string, User>): Tables
    requires Names(Concat(batches)) <= users.Keys
    decreases |batches|
  {
    if batches == [] then t
    else
      NamesAppend(batches[0], Concat(batches[1..]));
      CommitAll(CommitBatch(t, batches[0], users), batches[1..], users)
  }

  lemma CommitTwice(t: Tables, a: seq<Event>, b: seq<Event>, users: map<string, User>)
    requires Names(a) <= users.Keys && Names(b) <= users.Keys && AgreeingUsers(users)
    ensures Names(a + b) == Names(a) + Names(b)
    ensures CommitBatch(CommitBatch(t, a, users), b, users) == CommitBatch(t, a + b, users)
  {
    NamesAppend(a, b);
    WithDevelopersTwice(t.developers, Names(a), Names(b), users);
    UpsertAllAppend(t.events, a, b);
  }

  /** How the events are cut into batches does not show in the tables. */
  lemma {:induction false} BatchingInvisible(t: Tables, batches: seq<seq<Event>>, users: map<string, User>)
    requires Names(Concat(batches)) <= users.Keys && AgreeingUsers(users)
    ensures CommitAll(t, batches, users) == CommitBatch(t, Concat(batches), users)
    decreases |batches|
  {
    if batches == [] {
      assert Names([]) == {} && Listing({}) == [];
    } else {
      NamesAppend(batches[0], Concat(batches[1..]));
      BatchingInvisible(CommitBatch(t, batches[0], users), batches[1..], users);
      CommitTwice(t, batches[0], Concat(batches[1..]), users);
    }
  }

  lemma PrefixThenAll(t: Tables, done: seq<Event>, s: seq<Event>, users: map<string, User>)
    requires done <= s && Names(s) <= users.Keys && AgreeingUsers(users)
    ensures Names(done) <= Names(s)
    ensures CommitBatch(CommitBatch(t, done, users), s, users) == CommitBatch(t, s, users)
  {
    assert s == done + s[|done|..];
    NamesAppend(done, s[|done|..]);
    WithDevelopersTwice(t.developers, Names(done), Names(s), users);
    assert Names(done) + Names(s) == Names(s);
    EventReplay(t.events, done, s);
  }

  lemma {:induction false} ConcatPrefix<T>(batches: seq<seq<T>>, k: nat)
    requires k <= |batches|
    ensures Concat(batches[..k]) <= Concat(batches)
  {
    assert batches == batches[..k] + batches[k..];
    ConcatAppend(batches[..k], batches[k..]);
  }

  /**
   * A flush that stops after any of its batches and is then run again in full,
   * with whatever batch size, leaves the tables of one uninterrupted flush.
   */
  lemma CrashAndReplay(t: Tables, s: seq<Event>, first: seq<seq<Event>>, size: int, k: nat,
                       second: seq<seq<Event>>, size': int, users: map<string, User>)
    requires IsSplit(first, s, size) && IsSplit(second, s, size') && size >= 1 && size' >= 1
    requires k <= |first| && Names(s) <= users.Keys && AgreeingUsers(users)
    ensures Concat(first) == s == Concat(second) && Names(Concat(first[..k])) <= Names(s)
    ensures CommitAll(CommitAll(t, first[..k], users), second, users) == CommitAll(t, first, users)
  {
    ConcatPrefix(first, k);
    var done := Concat(first[..k]);
    PrefixThenAll(t, done, s, users);
    BatchingInvisible(t, first[..k], users);
    BatchingInvisible(CommitAll(t, first[..k], users), second, users);
    BatchingInvisible(t, first, users);
  }

  /** The tables after attempts that each stored some first part of s. */
  ghost function AfterAttempts(t: Tables, s: seq<Event>, attempts: seq<nat>, users: map<string, User>): Tables
    requires (forall i :: 0 <= i < |attempts| ==> attempts[i] <= |s|) && Names(s) <= users.Keys
  {
    if attempts == [] then t
    else
      var n := |attempts| - 1;
      assert s == s[..attempts[n]] + s[attempts[n]..];
      NamesAppend(s[..attempts[n]], s[attempts[n]..]);
      CommitBatch(AfterAttempts(t, s, attempts[..n], users), s[..attempts[n]], users)
  }

  /** However often a flush crashes and wherever, a complete one makes up for it. */
  lemma {:induction false} AnyCrashesAndReplay(t: Tables, s: seq<Event>, attempts: seq<nat>, users: map<string, User>)
    requires (forall i :: 0 <= i < |attempts| ==> attempts[i] <= |s|)
    requires Names(s) <= users.Keys && AgreeingUsers(users)
    ensures CommitBatch(AfterAttempts(t, s, attempts, users), s, users) == CommitBatch(t, s, users)
  {
    if attempts != [] {
      var n := |attempts| - 1;
      PrefixThenAll(AfterAttempts(t, s, attempts[..n], users), s[..attempts[n]], s, users);
      AnyCrashesAndReplay(t, s, attempts[..n], users);
    }
  }
}
