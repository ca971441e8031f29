// The bounded in-memory cache of API responses.
module ResponseCache {
  import opened Insertion

  const DEFAULT_MAX_ENTRIES: nat := 5000

  /** id stands for the address of the entry: no two entries made have the same. */
  datatype CacheEntry = CacheEntry(id: nat, data: string, expires: int)

  type Entries = map<string, CacheEntry>

  predicate Expired(e: CacheEntry, now: int) {
    now > e.expires
  }

  function Unexpired(m: Entries, now: int): Entries {
    map k | k in m && !Expired(m[k], now) :: m[k]
  }

  function WithoutPrefix(m: Entries, prefix: string): Entries {
    map k | k in m && !(prefix <= k) :: m[k]
  }

  function Limit(maxEntries: int): (limit: nat)
    ensures limit >= 1
  {
    if maxEntries <= 0 then DEFAULT_MAX_ENTRIES else maxEntries
  }

  /** Size that a sorting eviction goes down to. */
  function Target(limit: nat): nat {
    limit - limit / 10
  }

  ghost predicate SubMap(a: Entries, b: Entries) {
    forall k :: k in a ==> k in b && a[k] == b[k]
  }

  /** m' keeps the target number of entries of m, none expiring before a dropped one. */
  ghost predicate SortingEviction(m: Entries, m': Entries, limit: nat) {
    && SubMap(m', m)
    && |m'| == Target(limit)
    && forall k, v :: k in m' && v in m && v !in m' ==> m[v].expires <= m'[k].expires
  }

  /** The eviction sorts only when dropping expired entries is not enough. */
  predicate NeedsSorting(m: Entries, limit: nat, now: int) {
    |m| > limit && |Unexpired(m, now)| > limit
  }

  ghost predicate EvictionOf(m: Entries, m': Entries, limit: nat, now: int) {
    if |m| <= limit then m' == m
    else if |Unexpired(m, now)| <= limit then m' == Unexpired(m, now)
    else SortingEviction(Unexpired(m, now), m', limit)
  }

  // ---- The sorted list of victims ----

  ghost predicate SortedByExpiry(m: Entries, keys: seq<string>)
    requires forall i :: 0 <= i < |keys| ==> keys[i] in m
  {
    forall i, j :: 0 <= i < j < |keys| ==> m[keys[i]].expires <= m[keys[j]].expires
  }

  ghost predicate Distinct(keys: seq<string>) {
    forall i, j :: 0 <= i < j < |keys| ==> keys[i] != keys[j]
  }

  /** keys lists the keys in done once each, soonest expiry first. */
  ghost predicate VictimList(m: Entries, keys: seq<string>, done: set<string>) {
    && done <= m.Keys && |keys| == |done|
    && (forall i :: 0 <= i < |keys| ==> keys[i] in done)
    && (forall k :: k in done ==> k in keys)
    && Distinct(keys) && SortedByExpiry(m, keys)
  }

  lemma AddDistinct(keys: seq<string>, k: string, j: nat)
    requires Distinct(keys) && k !in keys && j <= |keys|
    ensures Distinct(PutAt(keys, k, j))
  {
  }

  lemma AddSorted(m: Entries, keys: seq<string>, k: string, j: nat)
    requires (forall i :: 0 <= i < |keys| ==> keys[i] in m) && k in m && j <= |keys|
    requires SortedByExpiry(m, keys)
    requires forall i :: 0 <= i < j ==> m[keys[i]].expires <= m[k].expires
    requires forall i :: j <= i < |keys| ==> m[k].expires <= m[keys[i]].expires
    ensures forall i :: 0 <= i < |PutAt(keys, k, j)| ==> PutAt(keys, k, j)[i] in m
    ensures SortedByExpiry(m, PutAt(keys, k, j))
  {
  }

  lemma AddVictim(m: Entries, keys: seq<string>, done: set<string>, k: string, j: nat)
    requires VictimList(m, keys, done) && k in m && k !in done && j <= |keys|
    requires forall i :: 0 <= i < j ==> m[keys[i]].expires <= m[k].expires
    requires forall i :: j <= i < |keys| ==> m[k].expires <= m[keys[i]].expires
    ensures VictimList(m, PutAt(keys, k, j), done + {k})
  {
    AddDistinct(keys, k, j);
    AddSorted(m, keys, k, j);
    hide Distinct;
    hide SortedByExpiry;
    PutAtKeeps(keys, k, j);
  }

  /** All keys of the cache, soonest expiry first; the map is walked in no particular order. */
  method SortVictims(m: Entries) returns (keys: seq<string>)
    ensures VictimList(m, keys, m.Keys)
  {
    keys := [];
    var todo := m.Keys;
    ghost var done: set<string> := {};
    while todo != {}
      invariant VictimList(m, keys, done)
      invariant todo <= m.Keys && forall k :: k in m ==> (k in done <==> k !in todo)
      decreases todo
    {
      var k :| k in todo;
      var j := FindPlace(m, keys, k);
      AddVictim(m, keys, done, k, j);
      keys := PutAt(keys, k, j);
      done := done + {k};
      todo := todo - {k};
    }
    assert done == m.Keys;
  }

  method FindPlace(m: Entries, keys: seq<string>, k: string) returns (j: nat)
    requires k in m && forall i :: 0 <= i < |keys| ==> keys[i] in m
    requires SortedByExpiry(m, keys)
    ensures j <= |keys|
    ensures forall i :: 0 <= i < j ==> m[keys[i]].expires <= m[k].expires
    ensures forall i :: j <= i < |keys| ==> m[k].expires <= m[keys[i]].expires
  {
    j := |keys|;
    while j > 0 && m[k].expires < m[keys[j - 1]].expires
      invariant 0 <= j <= |keys|
      invariant forall i :: j <= i < |keys| ==> m[k].expires <= m[keys[i]].expires
    {
      j := j - 1;
    }
  }

  lemma PutAtKeeps(keys: seq<string>, k: string, j: nat)
    requires j <= |keys|
    ensures k in PutAt(keys, k, j)
    ensures forall x :: x in keys ==> x in PutAt(keys, k, j)
  {
    assert PutAt(keys, k, j)[j] == k;
    forall x | x in keys
      ensures x in PutAt(keys, k, j)
    {
      var i :| 0 <= i < |keys| && keys[i] == x;
      assert PutAt(keys, k, j)[if i < j then i else i + 1] == x;
    }
  }

  // ---- The cache ----

  class Cache {
    const maxEntries: int
    var entries: Entries
    var nextId: nat

    constructor (maxEntries: int)
      ensures this.maxEntries == maxEntries && entries == map[] && nextId == 0
    {
      this.maxEntries := maxEntries;
      entries, nextId := map[], 0;
    }

    /** Deletes every expired entry. */
    method PurgeExpired(now: int)
      modifies this`entries
      ensures entries == Unexpired(old(entries), now)
      ensures forall k :: k in entries <==> k in old(entries) && now <= old(entries)[k].expires
      ensures forall k :: k in entries ==> entries[k] == old(entries)[k]
    {
      var todo := entries.Keys;
      while todo != {}
        invariant todo <= old(entries).Keys
        invariant forall k :: k in entries <==> k in old(entries) && (k in todo || !Expired(old(entries)[k], now))
        invariant forall k :: k in entries ==> entries[k] == old(entries)[k]
        decreases todo
      {
        var k :| k in todo;
        if k in entries && Expired(entries[k], now) {
          entries := entries - {k};
        }
        todo := todo - {k};
      }
    }

    /** The first part of get: the entry found under the read lock. */
    method Read(key: string) returns (found: bool, e: CacheEntry)
      ensures found <==> key in entries
      ensures found ==> e == entries[key]
    {
      found := key in entries;
      e := if found then entries[key] else CacheEntry(0, "", 0);
    }

    /** The last part of get: deletes the entry unless it was replaced meanwhile. */
    method DeleteIfSame(key: string, e: CacheEntry)
      modifies this`entries
      ensures entries == WithoutSame(old(entries), key, e)
      ensures entries == if key in old(entries) && old(entries)[key].id == e.id then old(entries) - {key} else old(entries)
    {
      if key in entries && entries[key].id == e.id {
        entries := entries - {key};
      }
    }

    /** get when nothing else runs: a hit is an entry that has not expired. */
    method Get(key: string, now: int) returns (ok: bool, data: string)
      modifies this`entries
      ensures ok <==> key in old(entries) && now <= old(entries)[key].expires
      ensures ok ==> data == old(entries)[key].data && entries == old(entries)
      ensures !ok ==> entries == old(entries) - {key}
    {
      var found, e := Read(key);
      if !found {
        return false, "";
      }
      if Expired(e, now) {
        DeleteIfSame(key, e);
        return false, "";
      }
      return true, e.data;
    }

    /** Stores a value and makes room; now is read for the expiry, later for the eviction. */
    method SetWithTTL(key: string, val: string, ttl: int, now: int, later: int)
      modifies this`entries, this`nextId
      ensures nextId == old(nextId) + 1
      ensures EvictionOf(old(entries)[key := CacheEntry(old(nextId), val, now + ttl)], entries, Limit(maxEntries), later)
      ensures |entries| <= Limit(maxEntries)
      ensures forall k :: k in entries ==>
                || (k == key && entries[k] == CacheEntry(old(nextId), val, now + ttl))
                || (k != key && k in old(entries) && entries[k] == old(entries)[k])
    {
      entries := entries[key := CacheEntry(nextId, val, now + ttl)];
      nextId := nextId + 1;
      EvictLocked(later);
    }

    method EvictLocked(now: int)
      modifies this`entries
      ensures EvictionOf(old(entries), entries, Limit(maxEntries), now)
      ensures |entries| <= Limit(maxEntries)
      ensures var limit := if maxEntries <= 0 then 5000 else maxEntries;
              && |entries| <= limit
              && (|old(entries)| <= limit ==> entries == old(entries))
              && (forall k :: k in old(entries) && k !in entries && now <= old(entries)[k].expires ==>
                    |entries| == limit - limit / 10)
              && (forall k, v :: k in entries && v in old(entries) && v !in entries ==>
                    old(entries)[v].expires <= entries[k].expires)
    {
      var limit := Limit(maxEntries);
      if |entries| <= limit {
        return;
      }
      PurgeExpired(now);
      if |entries| <= limit {
        return;
      }
      var target := limit - limit / 10;
      var excess := |entries| - target;
      var victims := SortVictims(entries);
      FirstsDropped(entries, victims, excess);
      DropFirst(victims, excess);
    }

    /** Deletes the first excess victims. */
    method DropFirst(victims: seq<string>, excess: nat)
      requires excess <= |victims|
      modifies this`entries
      ensures entries == old(entries) - Firsts(victims, excess)
    {
      var i := 0;
      while i < excess
        invariant 0 <= i <= excess
        invariant entries == old(entries) - Firsts(victims, i)
      {
        entries := entries - {victims[i]};
        i := i + 1;
      }
    }

    /**
     * A get after a set hits only within the time to live, with the value set; and
     * always then, if the cache had room for the key.
     */
    method SetThenGet(key: string, val: string, ttl: int, now: int, later: int, readAt: int) returns (ok: bool, data: string)
      modifies this`entries, this`nextId
      ensures ok ==> readAt <= now + ttl && data == val
      ensures |old(entries)[key := CacheEntry(old(nextId), val, now + ttl)]| <= (if maxEntries <= 0 then 5000 else maxEntries) ==>
                (ok <==> readAt <= now + ttl)
    {
      SetWithTTL(key, val, ttl, now, later);
      ok, data := Get(key, readAt);
    }

    method InvalidatePrefix(prefix: string)
      modifies this`entries
      ensures entries == WithoutPrefix(old(entries), prefix)
      ensures forall k :: k in entries <==> k in old(entries) && !(prefix <= k)
      ensures forall k :: k in entries ==> entries[k] == old(entries)[k]
    {
      var todo := entries.Keys;
      while todo != {}
        invariant todo <= old(entries).Keys
        invariant forall k :: k in entries <==> k in old(entries) && (k in todo || !(prefix <= k))
        invariant forall k :: k in entries ==> entries[k] == old(entries)[k]
        decreases todo
      {
        var k :| k in todo;
        if prefix <= k {
          entries := entries - {k};
        }
        todo := todo - {k};
      }
    }
  }

  function Firsts(victims: seq<string>, i: nat): set<string>
    requires i <= |victims|
  {
    if i == 0 then {} else Firsts(victims, i - 1) + {victims[i - 1]}
  }

  lemma {:induction false} FirstsMember(victims: seq<string>, n: nat, k: string)
    requires n <= |victims|
    ensures k in Firsts(victims, n) <==> exists a :: 0 <= a < n && victims[a] == k
  {
    if n > 0 {
      FirstsMember(victims, n - 1, k);
    }
  }

  lemma {:induction false} FirstsCard(victims: seq<string>, n: nat)
    requires n <= |victims| && Distinct(victims)
    ensures |Firsts(victims, n)| == n
  {
    if n > 0 {
      FirstsCard(victims, n - 1);
      FirstsMember(victims, n - 1, victims[n - 1]);
    }
  }

  lemma {:induction false} FirstsAreKeys(m: Entries, victims: seq<string>, n: nat)
    requires n <= |victims| && forall i :: 0 <= i < |victims| ==> victims[i] in m
    ensures Firsts(victims, n) <= m.Keys
  {
    if n > 0 {
      FirstsAreKeys(m, victims, n - 1);
    }
  }

  lemma DifferenceSize(m: Entries, s: set<string>)
    requires s <= m.Keys
    ensures |m - s| == |m| - |s|
  {
    assert (m - s).Keys == m.Keys - s;
    assert |(m - s).Keys| == |m - s|;
  }

  lemma FirstsExpireFirst(m: Entries, victims: seq<string>, n: nat)
    requires n <= |victims| && VictimList(m, victims, m.Keys)
    ensures forall k, v :: k in m && k !in Firsts(victims, n) && v in Firsts(victims, n) ==>
              v in m && m[v].expires <= m[k].expires
  {
    forall k, v | k in m && k !in Firsts(victims, n) && v in Firsts(victims, n)
      ensures v in m && m[v].expires <= m[k].expires
    {
      FirstsMember(victims, n, k);
      FirstsMember(victims, n, v);
      var a :| 0 <= a < |victims| && victims[a] == k;
      var b :| 0 <= b < n && victims[b] == v;
    }
  }

  /** Dropping the first n victims is what a sorting eviction does. */
  lemma FirstsDropped(m: Entries, victims: seq<string>, n: nat)
    requires n <= |victims| && VictimList(m, victims, m.Keys)
    ensures var m' := m - Firsts(victims, n);
            && SubMap(m', m) && |m'| == |m| - n
            && forall k, v :: k in m' && v in m && v !in m' ==> m[v].expires <= m'[k].expires
  {
    FirstsCard(victims, n);
    FirstsAreKeys(m, victims, n);
    DifferenceSize(m, Firsts(victims, n));
    FirstsExpireFirst(m, victims, n);
  }

  function WithoutSame(m: Entries, key: string, e: CacheEntry): Entries {
    if key in m && m[key].id == e.id then m - {key} else m
  }
}
