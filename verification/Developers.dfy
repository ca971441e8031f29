// Developer rows and the transaction that writes one batch of events.
module Developers {
  import opened Lexical
  import opened Options
  import opened Events
  import opened Insertion

  // ---- From a GitHub user to a developer ----

  /** A user as the API returns it; absent fields are None. */
  datatype User = User(
    login: string, name: Option<string>, email: Option<string>, avatarURL: Option<string>,
    profileURL: Option<string>, company: Option<string>)

  datatype Developer = Developer(
    username: string, fullName: string, email: string, avatar: string, url: string, entity: string)

  /** Go's ASCII white space: the codes 9 to 13, and 32. */
  predicate IsSpace(c: char): (b: bool)
    ensures b <==> 9 <= c as int <= 13 || c as int == 32
  {
    c == ' ' || c == '\t' || c == '\n' || c == '\r' || c == '\U{000B}' || c == '\U{000C}'
  }

  function TrimLeft(s: string): string {
    if s != [] && IsSpace(s[0]) then TrimLeft(s[1..]) else s
  }

  function TrimRight(s: string): string {
    if s != [] && IsSpace(s[|s| - 1]) then TrimRight(s[..|s| - 1]) else s
  }

  function DropAts(s: string): string {
    if s == [] then [] else if s[0] == '@' then DropAts(s[1..]) else [s[0]] + DropAts(s[1..])
  }

  /** Surrounding white space and every '@' removed. */
  function Trim(s: string): string {
    DropAts(TrimRight(TrimLeft(s)))
  }

  function TrimOpt(s: Option<string>): string {
    if s.Some? then Trim(s.value) else ""
  }

  function Deref(s: Option<string>): string {
    if s.Some? then TrimRight(TrimLeft(s.value)) else ""
  }

  function MapUser(u: User): Developer {
    Developer(Trim(u.login), TrimOpt(u.name), Deref(u.email), Deref(u.avatarURL), Deref(u.profileURL),
              TrimOpt(u.company))
  }

  ghost predicate AllSpaces(s: string) {
    forall i :: 0 <= i < |s| ==> IsSpace(s[i])
  }

  /** Text that neither starts nor ends with white space. */
  ghost predicate Solid(s: string) {
    s != [] ==> !IsSpace(s[0]) && !IsSpace(s[|s| - 1])
  }

  lemma {:induction false} LeftTrimmed(left: string, rest: string)
    requires AllSpaces(left) && (rest != [] ==> !IsSpace(rest[0]))
    ensures TrimLeft(left + rest) == rest
  {
    if left == [] {
      assert left + rest == rest;
    } else {
      assert (left + rest)[1..] == left[1..] + rest;
      LeftTrimmed(left[1..], rest);
    }
  }

  lemma {:induction false} RightTrimmed(rest: string, right: string)
    requires AllSpaces(right) && (rest != [] ==> !IsSpace(rest[|rest| - 1]))
    ensures TrimRight(rest + right) == rest
  {
    var n := |right| - 1;
    if right == [] {
      assert rest + right == rest;
    } else {
      assert (rest + right)[..|rest + right| - 1] == rest + right[..n];
      RightTrimmed(rest, right[..n]);
    }
  }

  /** White space goes on both sides, and only there; then every '@' goes. */
  lemma TrimMeaning(left: string, core: string, right: string)
    requires AllSpaces(left) && Solid(core) && AllSpaces(right)
    ensures TrimRight(TrimLeft(left + core + right)) == core
    ensures Trim(left + core + right) == DropAts(core)
  {
    if core == [] {
      assert left + core + right == (left + right) + [];
      LeftTrimmed(left + right, []);
    } else {
      assert left + core + right == left + (core + right);
      LeftTrimmed(left, core + right);
      RightTrimmed(core, right);
    }
  }

  lemma {:induction false} DropAtsMeaning(a: string, b: string)
    ensures DropAts(a + b) == DropAts(a) + DropAts(b)
    ensures '@' !in DropAts(a) && ('@' !in a ==> DropAts(a) == a)
    decreases |a|
  {
    if a == [] {
      assert a + b == b;
    } else {
      assert (a + b)[1..] == a[1..] + b && a == [a[0]] + a[1..];
      DropAtsMeaning(a[1..], b);
    }
  }

  // ---- Upserting developers ----

  /** A stored developer; entity is null until it is known. */
  datatype Profile = Profile(fullName: string, email: string, avatar: string, url: string, entity: Option<string>)

  type DeveloperTable = map<string, Profile>

  /** The row left by writing d over what is stored. */
  function Merged(t: DeveloperTable, d: Developer): Profile {
    Profile(d.fullName, d.email, d.avatar, d.url,
            if d.entity != "" then Some(d.entity) else if d.username in t then t[d.username].entity else None)
  }

  function UpsertDevelopers(t: DeveloperTable, devs: seq<Developer>): DeveloperTable {
    if devs == [] then t
    else
      var before := UpsertDevelopers(t, devs[..|devs| - 1]);
      var d := devs[|devs| - 1];
      before[d.username := Merged(before, d)]
  }

  lemma {:induction false} UpsertDevelopersAppend(t: DeveloperTable, a: seq<Developer>, b: seq<Developer>)
    ensures UpsertDevelopers(t, a + b) == UpsertDevelopers(UpsertDevelopers(t, a), b)
  {
    if b == [] {
      assert a + b == a;
    } else {
      assert (a + b)[..|a + b| - 1] == a + b[..|b| - 1];
      UpsertDevelopersAppend(t, a, b[..|b| - 1]);
    }
  }

  /** The last developer written under a name; None when there is none. */
  function LastNamed(devs: seq<Developer>, name: string): Option<Developer> {
    if devs == [] then None
    else if devs[|devs| - 1].username == name then Some(devs[|devs| - 1])
    else LastNamed(devs[..|devs| - 1], name)
  }

  /** The last entity written under a name that is not empty; "" when there is none. */
  function LastEntity(devs: seq<Developer>, name: string): string {
    if devs == [] then ""
    else
      var d := devs[|devs| - 1];
      if d.username == name && d.entity != "" then d.entity else LastEntity(devs[..|devs| - 1], name)
  }

  /** What any writes leave: the last developer's columns, and the last known entity or the stored one. */
  lemma {:induction false} RowAfterDevelopers(t: DeveloperTable, devs: seq<Developer>, name: string)
    ensures name in UpsertDevelopers(t, devs) <==> name in t || LastNamed(devs, name).Some?
    ensures LastNamed(devs, name).None? ==> LastEntity(devs, name) == ""
    ensures name in UpsertDevelopers(t, devs) ==>
              UpsertDevelopers(t, devs)[name] ==
              match LastNamed(devs, name)
              case None => t[name]
              case Some(d) =>
                Profile(d.fullName, d.email, d.avatar, d.url,
                        if LastEntity(devs, name) != "" then Some(LastEntity(devs, name))
                        else if name in t then t[name].entity else None)
  {
    if devs != [] {
      RowAfterDevelopers(t, devs[..|devs| - 1], name);
    }
  }

  /** Text without the white space around it; "" for an absent field. */
  function Bare(s: Option<string>): string {
    if s.None? then "" else TrimRight(TrimLeft(s.value))
  }

  /** Where each field of a user goes: all but the links lose their '@'s, and an empty company keeps the stored one. */
  lemma WrittenUser(t: DeveloperTable, u: User)
    ensures var name := Trim(u.login);
      var r := UpsertDevelopers(t, [MapUser(u)]);
      && name in r
      && r[name].fullName == DropAts(Bare(u.name)) && r[name].email == Bare(u.email)
      && r[name].avatar == Bare(u.avatarURL) && r[name].url == Bare(u.profileURL)
      && r[name].entity == (if DropAts(Bare(u.company)) != "" then Some(DropAts(Bare(u.company)))
                            else if name in t then t[name].entity else None)
      && forall n :: n in r && n != name ==> n in t && r[n] == t[n]
  {
    var d := MapUser(u);
    assert [d][..0] == [];
    assert UpsertDevelopers(t, [d]) == t[d.username := Merged(t, d)];
  }

  // ---- When the order of the writes does not show ----

  /** The two can be written one after the other, either way round, to the same effect. */
  predicate Agree(d: Developer, e: Developer) {
    && d.fullName == e.fullName && d.email == e.email && d.avatar == e.avatar && d.url == e.url
    && (d.entity == e.entity || d.entity == "" || e.entity == "")
  }

  ghost predicate AllAgree(devs: seq<Developer>) {
    forall d, e :: d in devs && e in devs && d.username == e.username ==> Agree(d, e)
  }

  lemma {:induction false} LastNamedIn(devs: seq<Developer>, name: string)
    ensures LastNamed(devs, name).Some? ==> LastNamed(devs, name).value in devs
    ensures LastNamed(devs, name).Some? ==> LastNamed(devs, name).value.username == name
    ensures LastNamed(devs, name).None? ==> forall d :: d in devs ==> d.username != name
  {
    if devs != [] {
      LastNamedIn(devs[..|devs| - 1], name);
      assert devs == devs[..|devs| - 1] + [devs[|devs| - 1]];
    }
  }

  ghost predicate BringsEntity(devs: seq<Developer>, name: string, entity: string) {
    exists d :: d in devs && d.username == name && d.entity == entity
  }

  lemma {:induction false} LastEntityIn(devs: seq<Developer>, name: string)
    ensures LastEntity(devs, name) != "" ==> BringsEntity(devs, name, LastEntity(devs, name))
    ensures LastEntity(devs, name) == "" ==> forall d :: d in devs && d.username == name ==> d.entity == ""
  {
    if devs != [] {
      var n := |devs| - 1;
      LastEntityIn(devs[..n], name);
      assert devs == devs[..n] + [devs[n]];
      if LastEntity(devs[..n], name) != "" {
        var d :| d in devs[..n] && d.username == name && d.entity == LastEntity(devs[..n], name);
        assert d in devs;
      }
      assert devs[n] in devs;
    }
  }

  lemma SameLastEntity(a: seq<Developer>, b: seq<Developer>, name: string)
    requires AllAgree(a) && forall d :: d in a <==> d in b
    ensures LastEntity(a, name) == LastEntity(b, name)
  {
    LastEntityIn(a, name);
    LastEntityIn(b, name);
    if LastEntity(a, name) != "" && LastEntity(b, name) != "" {
      var d :| d in a && d.username == name && d.entity == LastEntity(a, name);
      var e :| e in b && e.username == name && e.entity == LastEntity(b, name);
      assert Agree(d, e);
    }
  }

  /** Developers that agree leave the same table in whatever order and however often they are written. */
  lemma SameWritersSameTable(t: DeveloperTable, a: seq<Developer>, b: seq<Developer>)
    requires AllAgree(a) && forall d :: d in a <==> d in b
    ensures UpsertDevelopers(t, a) == UpsertDevelopers(t, b)
  {
    var r, q := UpsertDevelopers(t, a), UpsertDevelopers(t, b);
    forall name
      ensures name in r <==> name in q
      ensures name in r ==> r[name] == q[name]
    {
      RowAfterDevelopers(t, a, name);
      RowAfterDevelopers(t, b, name);
      LastNamedIn(a, name);
      LastNamedIn(b, name);
      SameLastEntity(a, b, name);
      if LastNamed(a, name).Some? && LastNamed(b, name).Some? {
        assert Agree(LastNamed(a, name).value, LastNamed(b, name).value);
      }
    }
  }

  /** Users that trimming gives one username agree on everything else. */
  ghost predicate AgreeingUsers(users: map<string, User>) {
    forall a, b :: a in users && b in users && MapUser(users[a]).username == MapUser(users[b]).username ==>
      Agree(MapUser(users[a]), MapUser(users[b]))
  }

  function DevelopersOf(order: seq<string>, users: map<string, User>): (devs: seq<Developer>)
    requires forall i :: 0 <= i < |order| ==> order[i] in users
    ensures |devs| == |order| && forall i :: 0 <= i < |devs| ==> devs[i] == MapUser(users[order[i]])
  {
    seq(|order|, i requires 0 <= i < |order| => MapUser(users[order[i]]))
  }

  ghost predicate EachOnce(order: seq<string>, names: set<string>) {
    && (forall i, j :: 0 <= i < j < |order| ==> order[i] != order[j])
    && (forall i :: 0 <= i < |order| ==> order[i] in names)
    && (forall name :: name in names ==> name in order)
  }

  /** The names in some order. */
  ghost function Listing(names: set<string>): (order: seq<string>)
    ensures EachOnce(order, names)
  {
    if names == {} then []
    else
      var name :| name in names;
      [name] + Listing(names - {name})
  }

  /** The table after the named users are written, each once. */
  ghost function WithDevelopers(t: DeveloperTable, names: set<string>, users: map<string, User>): DeveloperTable
    requires names <= users.Keys
  {
    UpsertDevelopers(t, DevelopersOf(Listing(names), users))
  }

  lemma WritersAgree(order: seq<string>, users: map<string, User>)
    requires AgreeingUsers(users) && forall i :: 0 <= i < |order| ==> order[i] in users
    ensures AllAgree(DevelopersOf(order, users))
  {
    var devs := DevelopersOf(order, users);
    forall d, e | d in devs && e in devs && d.username == e.username
      ensures Agree(d, e)
    {
      var i :| 0 <= i < |devs| && devs[i] == d;
      var j :| 0 <= j < |devs| && devs[j] == e;
      assert MapUser(users[order[i]]) == d && MapUser(users[order[j]]) == e;
    }
  }

  lemma SameWriters(a: seq<string>, b: seq<string>, users: map<string, User>)
    requires forall i :: 0 <= i < |a| ==> a[i] in users
    requires forall i :: 0 <= i < |a| ==> a[i] in b
    requires forall i :: 0 <= i < |b| ==> b[i] in users
    ensures forall d :: d in DevelopersOf(a, users) ==> d in DevelopersOf(b, users)
  {
    forall d | d in DevelopersOf(a, users)
      ensures d in DevelopersOf(b, users)
    {
      var i :| 0 <= i < |a| && DevelopersOf(a, users)[i] == d;
      var j :| 0 <= j < |b| && b[j] == a[i];
      assert DevelopersOf(b, users)[j] == d;
    }
  }

  /** Writing users again leaves what writing them once left. */
  lemma WithDevelopersTwice(t: DeveloperTable, a: set<string>, b: set<string>, users: map<string, User>)
    requires AgreeingUsers(users) && a <= users.Keys && b <= users.Keys
    ensures WithDevelopers(WithDevelopers(t, a, users), b, users) == WithDevelopers(t, a + b, users)
  {
    hide UpsertDevelopers, MapUser, AllAgree, AgreeingUsers, Listing;
    var both := Listing(a) + Listing(b);
    var da, db := DevelopersOf(Listing(a), users), DevelopersOf(Listing(b), users);
    assert DevelopersOf(both, users) == da + db;
    UpsertDevelopersAppend(t, da, db);
    WritersAgree(both, users);
    SameWriters(both, Listing(a + b), users);
    SameWriters(Listing(a + b), both, users);
    SameWritersSameTable(t, DevelopersOf(both, users), DevelopersOf(Listing(a + b), users));
  }

  // ---- The developers of a batch ----

  ghost function Names(batch: seq<Event>): set<string> {
    set i | 0 <= i < |batch| :: batch[i].key.username
  }

  ghost predicate SortedByUsername(devs: seq<Developer>) {
    forall i, j :: 0 <= i < j < |devs| ==> Compare(devs[i].username, devs[j].username) <= 0
  }

  /** devs are the users called names, one each, sorted by username. */
  ghost predicate IsDeveloperOrder(devs: seq<Developer>, order: seq<string>, names: set<string>,
                                   users: map<string, User>)
    requires names <= users.Keys
  {
    && |order| == |devs|
    && EachOnce(order, names)
    && (forall i :: 0 <= i < |order| ==> devs[i] == MapUser(users[order[i]]))
    && SortedByUsername(devs)
  }

  lemma PlaceDeveloper(devs: seq<Developer>, d: Developer, j: nat)
    requires SortedByUsername(devs) && j <= |devs|
    requires j > 0 ==> Compare(devs[j - 1].username, d.username) <= 0
    requires forall p :: j <= p < |devs| ==> Compare(d.username, devs[p].username) <= 0
    ensures SortedByUsername(PutAt(devs, d, j))
  {
    hide Compare;
    forall p | 0 <= p < j
      ensures Compare(devs[p].username, d.username) <= 0
    {
      if p < j - 1 {
        CompareTransitive(devs[p].username, devs[j - 1].username, d.username);
      }
    }
  }

  method FindDeveloperPlace(devs: seq<Developer>, d: Developer) returns (j: nat)
    ensures j <= |devs|
    ensures j > 0 ==> Compare(devs[j - 1].username, d.username) <= 0
    ensures forall p :: j <= p < |devs| ==> Compare(d.username, devs[p].username) <= 0
  {
    j := |devs|;
    while j > 0 && Compare(devs[j - 1].username, d.username) > 0
      invariant 0 <= j <= |devs|
      invariant forall p :: j <= p < |devs| ==> Compare(d.username, devs[p].username) <= 0
    {
      CompareFlips(devs[j - 1].username, d.username);
      j := j - 1;
    }
  }

  method SeenNames(batch: seq<Event>) returns (seen: set<string>)
    ensures seen == Names(batch)
  {
    seen := {};
    for i := 0 to |batch|
      invariant seen == Names(batch[..i])
    {
      NamesAppend(batch[..i], [batch[i]]);
      assert batch[..i + 1] == batch[..i] + [batch[i]];
      assert Names([batch[i]]) == {batch[i].key.username};
      seen := seen + {batch[i].key.username};
    }
    assert batch[..|batch|] == batch;
  }

  /** Puts one more user among the sorted developers. */
  method AddUser(devs: seq<Developer>, order: seq<string>, ghost names: set<string>, users: map<string, User>,
                 username: string) returns (devs': seq<Developer>, order': seq<string>)
    requires names <= users.Keys && IsDeveloperOrder(devs, order, names, users)
    requires username in users && username !in names
    ensures IsDeveloperOrder(devs', order', names + {username}, users)
  {
    var d := MapUser(users[username]);
    var j := FindDeveloperPlace(devs, d);
    PlaceDeveloper(devs, d, j);
    AddToOrder(devs, order, names, users, username, j);
    devs' := PutAt(devs, d, j);
    order' := PutAt(order, username, j);
  }

  /** The known users of a batch, mapped and sorted; the map is walked in no particular order. */
  method BatchDevelopers(batch: seq<Event>, users: map<string, User>)
    returns (devs: seq<Developer>, order: seq<string>)
    ensures IsDeveloperOrder(devs, order, Names(batch) * users.Keys, users)
  {
    var todo := SeenNames(batch);
    ghost var names := todo;
    ghost var done: set<string> := {};
    devs, order := [], [];
    while todo != {}
      invariant todo <= names
      invariant forall n :: n in done <==> n in names && n in users && n !in todo
      invariant IsDeveloperOrder(devs, order, done, users)
      decreases todo
    {
      var username :| username in todo;
      if username in users {
        devs, order := AddUser(devs, order, done, users, username);
        done := done + {username};
      }
      todo := todo - {username};
    }
    assert done == names * users.Keys;
  }

  lemma AddToOrder(devs: seq<Developer>, order: seq<string>, names: set<string>, users: map<string, User>,
                   name: string, j: nat)
    requires names <= users.Keys && IsDeveloperOrder(devs, order, names, users)
    requires name in users && name !in names && j <= |devs|
    requires SortedByUsername(PutAt(devs, MapUser(users[name]), j))
    ensures IsDeveloperOrder(PutAt(devs, MapUser(users[name]), j), PutAt(order, name, j), names + {name}, users)
  {
    hide MapUser, SortedByUsername, PutAt;
    PutAtEachOnce(order, names, name, j);
    PutAtMapped(devs, order, users, name, j);
    hide EachOnce;
  }

  lemma PutAtMapped(devs: seq<Developer>, order: seq<string>, users: map<string, User>, name: string, j: nat)
    requires |devs| == |order| && name in users && j <= |devs|
    requires forall i :: 0 <= i < |order| ==> order[i] in users && devs[i] == MapUser(users[order[i]])
    ensures var devs', order' := PutAt(devs, MapUser(users[name]), j), PutAt(order, name, j);
            && |devs'| == |order'|
            && forall i :: 0 <= i < |order'| ==> order'[i] in users && devs'[i] == MapUser(users[order'[i]])
  {
    hide MapUser;
  }

  lemma PutAtEachOnce(order: seq<string>, names: set<string>, name: string, j: nat)
    requires EachOnce(order, names) && name !in names && j <= |order|
    ensures EachOnce(PutAt(order, name, j), names + {name})
  {
    var order' := PutAt(order, name, j);
    forall n | n in names
      ensures n in order'
    {
      var i :| 0 <= i < |order| && order[i] == n;
      assert order'[if i < j then i else i + 1] == n;
    }
    assert order'[j] == name;
  }

  /** The order of the upserts does not show: what the named users leave is all there is to see. */
  lemma UpsertsWriteNames(t: DeveloperTable, devs: seq<Developer>, order: seq<string>, names: set<string>,
                          users: map<string, User>)
    requires names <= users.Keys && IsDeveloperOrder(devs, order, names, users) && AgreeingUsers(users)
    ensures UpsertDevelopers(t, devs) == WithDevelopers(t, names, users)
  {
    assert devs == DevelopersOf(order, users);
    WritersAgree(order, users);
    SameWriters(order, Listing(names), users);
    SameWriters(Listing(names), order, users);
    SameWritersSameTable(t, devs, DevelopersOf(Listing(names), users));
  }

  /** Whichever way the sort and the map walk order the users of a batch, the table comes out the same. */
  ghost predicate OrderHidden(users: map<string, User>) {
    forall t, names, devs, order, devs', order' ::
      names <= users.Keys && IsDeveloperOrder(devs, order, names, users) && IsDeveloperOrder(devs', order', names, users)
      ==> UpsertDevelopers(t, devs) == UpsertDevelopers(t, devs')
  }

  lemma TwoWrites(t: DeveloperTable, d: Developer, e: Developer)
    requires d.username == e.username
    ensures UpsertDevelopers(t, [d, e]) == UpsertDevelopers(t, [e, d]) <==> Agree(d, e)
  {
    if Agree(d, e) {
      assert forall x :: x in [d, e] <==> x in [e, d];
      SameWritersSameTable(t, [d, e], [e, d]);
    } else {
      RowAfterDevelopers(t, [d, e], d.username);
      RowAfterDevelopers(t, [e, d], d.username);
      assert [d, e][..1] == [d] && [e, d][..1] == [e] && [d][..0] == [] == [e][..0];
      hide UpsertDevelopers;
    }
  }

  lemma DisagreementShows(users: map<string, User>, a: string, b: string)
    requires a in users && b in users && MapUser(users[a]).username == MapUser(users[b]).username
    requires !Agree(MapUser(users[a]), MapUser(users[b]))
    ensures !OrderHidden(users)
  {
    hide MapUser, UpsertDevelopers, Agree;
    var d, e := MapUser(users[a]), MapUser(users[b]);
    assert a != b by { AgreesWithItself(d); }
    assert {a, b} <= users.Keys;
    assert EachOnce([a, b], {a, b}) && EachOnce([b, a], {a, b});
    assert IsDeveloperOrder([d, e], [a, b], {a, b}, users);
    assert IsDeveloperOrder([e, d], [b, a], {a, b}, users);
    TwoWrites(map[], d, e);
  }

  lemma AgreesWithItself(d: Developer)
    ensures Agree(d, d)
  {
  }

  /** That is so for all batches exactly when users that share a trimmed login agree. */
  lemma OrderHiddenIff(users: map<string, User>)
    ensures OrderHidden(users) <==> AgreeingUsers(users)
  {
    if AgreeingUsers(users) {
      forall t, names, devs, order, devs', order' |
        names <= users.Keys && IsDeveloperOrder(devs, order, names, users) && IsDeveloperOrder(devs', order', names, users)
        ensures UpsertDevelopers(t, devs) == UpsertDevelopers(t, devs')
      {
        UpsertsWriteNames(t, devs, order, names, users);
        UpsertsWriteNames(t, devs', order', names, users);
      }
    } else {
      var a, b :| a in users && b in users && MapUser(users[a]).username == MapUser(users[b]).username
        && !Agree(MapUser(users[a]), MapUser(users[b]));
      DisagreementShows(users, a, b);
    }
  }

  lemma TrimBob()
    ensures Trim("@bob") == "bob" && Trim(" bob") == "bob"
  {
    assert TrimLeft("@bob") == "@bob" && TrimRight("@bob") == "@bob";
    assert " bob"[1..] == "bob" && TrimLeft("bob") == "bob" && TrimRight("bob") == "bob";
    assert "@bob"[1..] == "bob" && "bob"[1..] == "ob" && "ob"[1..] == "b" && "b"[1..] == "";
    assert DropAts("b") == "b" && DropAts("ob") == "ob" && DropAts("bob") == "bob";
  }

  /** A user "bob" and a user "@bob" with another name: a batch of both leaves the name to chance. */
  lemma BobAndAtBobDisagree(users: map<string, User>)
    requires users == map["bob" := User("bob", Some("A"), None, None, None, None),
                          "@bob" := User("@bob", Some("B"), None, None, None, None)]
    ensures KeyedByLogin(users) && !OrderHidden(users)
  {
    TrimBob();
    TrimShort();
    hide Trim;
    assert |"@bob"| != |"bob"|;
    var d, e := MapUser(users["bob"]), MapUser(users["@bob"]);
    assert d.username == "bob" == e.username && d.fullName == "A" && e.fullName == "B";
    DisagreementShows(users, "bob", "@bob");
  }

  lemma TrimShort()
    ensures Trim("bob") == "bob" && Trim("A") == "A" && Trim("B") == "B"
  {
    assert "bob"[1..] == "ob" && "ob"[1..] == "b" && "b"[1..] == "" && "A"[1..] == "" && "B"[1..] == "";
    assert DropAts("b") == "b" && DropAts("ob") == "ob" && DropAts("bob") == "bob";
    assert DropAts("A") == "A" && DropAts("B") == "B";
  }

  /** Users under their own logins, as they are collected from events. */
  ghost predicate KeyedByLogin(users: map<string, User>) {
    forall name :: name in users ==> users[name].login == name
  }

  /** With logins that trimming leaves alone no two developers share a row, and they come in strict order. */
  lemma CleanOrderStrict(devs: seq<Developer>, order: seq<string>, names: set<string>, users: map<string, User>)
    requires names <= users.Keys && IsDeveloperOrder(devs, order, names, users)
    requires KeyedByLogin(users) && forall name :: name in names ==> Trim(name) == name
    ensures forall i :: 0 <= i < |devs| ==> devs[i].username == order[i]
    ensures forall i, j :: 0 <= i < j < |order| ==> Compare(order[i], order[j]) < 0
  {
    hide Compare;
  }

  /** Logins that trimming leaves alone never disagree. */
  lemma CleanLoginsAgree(users: map<string, User>)
    requires KeyedByLogin(users) && forall name :: name in users ==> Trim(name) == name
    ensures AgreeingUsers(users)
  {
    assert forall name :: name in users ==> MapUser(users[name]).username == name;
  }

  lemma NamesAppend(a: seq<Event>, b: seq<Event>)
    ensures Names(a + b) == Names(a) + Names(b)
  {
    forall name | name in Names(a) + Names(b)
      ensures name in Names(a + b)
    {
      if name in Names(a) {
        var i :| 0 <= i < |a| && a[i].key.username == name;
        assert (a + b)[i] == a[i];
      } else {
        var i :| 0 <= i < |b| && b[i].key.username == name;
        assert (a + b)[|a| + i] == b[i];
      }
    }
  }
}
