// The response cache under any interleaving of its locked sections, against a
// map that keeps every value until it is replaced or invalidated.
module CacheRuns {
  import opened Options
  import opened ResponseCache

  /**
   * A get in progress or done. spec and dropped are what the simple map and the
   * set of evicted keys were when the entry was read.
   */
  datatype Get =
    | Reading(key: string, found: Option<CacheEntry>, spec: Entries, dropped: set<string>, readAt: int)
    | Stale(key: string, e: CacheEntry, spec: Entries, dropped: set<string>, checkedAt: int)
    | Hit(key: string, data: string, spec: Entries, readAt: int, checkedAt: int)
    | Miss(key: string, spec: Entries, dropped: set<string>, checkedAt: int)

  /**
   * spec never evicts; made lists every entry ever made and lives when each was
   * set and for how long; dropped holds the keys
   * whose last value a sorting eviction dropped before it expired. sorted says
   * whether one has happened, newKeys counts the sets of absent keys since then.
   */
  datatype State = State(
    entries: Entries, spec: Entries, made: seq<CacheEntry>, lives: seq<Life>, dropped: set<string>, gets: seq<Get>,
    clock: int, sorted: bool, newKeys: nat)

  datatype Life = Life(setAt: int, ttl: int)

  /** What a map without eviction answers at a moment. */
  function Lookup(spec: Entries, key: string, now: int): Option<string> {
    if key in spec && !Expired(spec[key], now) then Some(spec[key].data) else None
  }

  // ---- Steps ----

  ghost predicate Init(s: State) {
    s.entries == s.spec == map[] && s.made == [] && s.lives == [] && s.dropped == {} && s.gets == [] && !s.sorted && s.newKeys == 0
  }

  ghost predicate Tick(s: State, s': State) {
    s.clock <= s'.clock && s' == s.(clock := s'.clock)
  }

  /** setWithTTL: the clock may move between the expiry and the eviction. */
  ghost predicate Set(s: State, s': State, limit: nat, key: string, val: string, ttl: int) {
    var e := CacheEntry(|s.made|, val, s.clock + ttl);
    var m := s.entries[key := e];
    var sorting := NeedsSorting(m, limit, s'.clock);
    && s.clock <= s'.clock
    && EvictionOf(m, s'.entries, limit, s'.clock)
    && s' == s.(
         entries := s'.entries, spec := s.spec[key := e], made := s.made + [e],
         lives := s.lives + [Life(s.clock, ttl)], clock := s'.clock,
         dropped := (s.dropped - {key}) + (if sorting then Unexpired(m, s'.clock).Keys - s'.entries.Keys else {}),
         sorted := s.sorted || sorting,
         newKeys := if sorting then 0 else if key in s.entries then s.newKeys else s.newKeys + 1)
  }

  /** purgeExpired: the clock is read before the lock is taken, readAt is that earlier reading. */
  ghost predicate Purge(s: State, s': State, readAt: int) {
    readAt <= s.clock && s' == s.(entries := Unexpired(s.entries, readAt))
  }

  ghost predicate Invalidate(s: State, s': State, prefix: string) {
    s' == s.(entries := WithoutPrefix(s.entries, prefix), spec := WithoutPrefix(s.spec, prefix))
  }

  /** get reads the entry under the read lock. */
  ghost predicate GetRead(s: State, s': State, key: string) {
    var found := if key in s.entries then Some(s.entries[key]) else None;
    s' == s.(gets := s.gets + [Reading(key, found, s.spec, s.dropped, s.clock)])
  }

  /** get looks at what it found, without a lock. */
  ghost predicate GetCheck(s: State, s': State, i: nat) {
    && i < |s.gets| && s.gets[i].Reading?
    && var g := s.gets[i];
       var next := match g.found
         case None => Miss(g.key, g.spec, g.dropped, g.readAt)
         case Some(e) =>
           if Expired(e, s.clock) then Stale(g.key, e, g.spec, g.dropped, s.clock)
           else Hit(g.key, e.data, g.spec, g.readAt, s.clock);
       s' == s.(gets := s.gets[i := next])
  }

  /** get deletes the expired entry under the write lock unless it was replaced. */
  ghost predicate GetDelete(s: State, s': State, i: nat) {
    && i < |s.gets| && s.gets[i].Stale?
    && var g := s.gets[i];
       s' == s.(entries := WithoutSame(s.entries, g.key, g.e),
                gets := s.gets[i := Miss(g.key, g.spec, g.dropped, g.checkedAt)])
  }

  ghost predicate Next(s: State, s': State, limit: nat) {
    || Tick(s, s')
    || (exists key, val, ttl :: Set(s, s', limit, key, val, ttl))
    || (exists readAt :: Purge(s, s', readAt))
    || (exists prefix :: Invalidate(s, s', prefix))
    || (exists key :: GetRead(s, s', key))
    || (exists i: nat :: GetCheck(s, s', i) || GetDelete(s, s', i))
  }

  // ---- Invariants ----

  ghost predicate Made(s: State, e: CacheEntry) {
    e.id < |s.made| && s.made[e.id] == e
  }

  /** The cache holds a part of the simple map, and misses only what expired or was evicted. */
  ghost predicate Refines(s: State) {
    && SubMap(s.entries, s.spec)
    && (forall k :: k in s.spec && k !in s.entries && k !in s.dropped ==> Expired(s.spec[k], s.clock))
    && (forall k :: k in s.spec ==> Made(s, s.spec[k]))
  }

  ghost predicate GetOk(s: State, g: Get) {
    match g
    case Reading(key, found, spec, dropped, readAt) =>
      && readAt <= s.clock
      && (found.Some? ==> key in spec && spec[key] == found.value && Made(s, found.value))
      && (found.None? ==> Lookup(spec, key, readAt).None? || key in dropped)
      && (key in spec ==> Made(s, spec[key]))
    case Stale(key, e, spec, dropped, checkedAt) =>
      && checkedAt <= s.clock && Made(s, e)
      && key in spec && spec[key] == e && Expired(e, checkedAt)
    case Hit(key, data, spec, readAt, checkedAt) =>
      && readAt <= checkedAt && Lookup(spec, key, readAt) == Some(data)
      && Made(s, spec[key]) && !Expired(spec[key], checkedAt)
    case Miss(key, spec, dropped, checkedAt) =>
      && (Lookup(spec, key, checkedAt).None? || key in dropped)
      && (key in spec ==> Made(s, spec[key]))
  }

  ghost predicate GetsOk(s: State) {
    forall i :: 0 <= i < |s.gets| ==> GetOk(s, s.gets[i])
  }

  ghost predicate Bounded(s: State, limit: nat) {
    |s.entries| <= limit && (s.sorted ==> |s.entries| <= Target(limit) + s.newKeys)
  }

  ghost predicate Inv(s: State, limit: nat) {
    Refines(s) && GetsOk(s) && Bounded(s, limit)
  }

  lemma SubMapSize(a: Entries, b: Entries)
    requires SubMap(a, b)
    ensures |a| <= |b|
  {
    KeysWithin(a.Keys, b.Keys);
    assert |a.Keys| == |a| && |b.Keys| == |b|;
  }

  lemma {:induction false} KeysWithin(a: set<string>, b: set<string>)
    requires a <= b
    ensures |a| <= |b|
  {
    if a != {} {
      var k :| k in a;
      KeysWithin(a - {k}, b - {k});
    }
  }

  lemma InsertSize(m: Entries, key: string, e: CacheEntry)
    ensures |m[key := e]| == if key in m then |m| else |m| + 1
  {
    assert m[key := e].Keys == m.Keys + {key};
    assert |m[key := e].Keys| == |m[key := e]|;
  }

  lemma EvictionShrinks(m: Entries, m': Entries, limit: nat, now: int)
    requires limit >= 1 && EvictionOf(m, m', limit, now)
    ensures SubMap(m', m) && |m'| <= limit
    ensures NeedsSorting(m, limit, now) ==> |m'| == Target(limit) && SubMap(m', Unexpired(m, now))
    ensures !NeedsSorting(m, limit, now) ==> forall k :: k in m && k !in m' ==> Expired(m[k], now)
  {
  }

  /** Whatever an eviction takes out is expired or is put on record as dropped. */
  lemma EvictionAccounted(m: Entries, m': Entries, limit: nat, now: int, k: string)
    requires limit >= 1 && EvictionOf(m, m', limit, now) && k in m && k !in m'
    ensures Expired(m[k], now) || (NeedsSorting(m, limit, now) && k in Unexpired(m, now).Keys - m'.Keys)
  {
  }

  lemma SetKeepsPart(s: State, s': State, limit: nat, key: string, val: string, ttl: int)
    requires Refines(s) && limit >= 1 && Set(s, s', limit, key, val, ttl)
    ensures SubMap(s'.entries, s'.spec)
  {
    var e := CacheEntry(|s.made|, val, s.clock + ttl);
    EvictionShrinks(s.entries[key := e], s'.entries, limit, s'.clock);
  }

  lemma SetMissesOnlyDropped(s: State, s': State, limit: nat, key: string, val: string, ttl: int, k: string)
    requires Refines(s) && limit >= 1 && Set(s, s', limit, key, val, ttl)
    requires k in s'.spec && k !in s'.entries && k !in s'.dropped
    ensures Expired(s'.spec[k], s'.clock)
  {
    var e := CacheEntry(|s.made|, val, s.clock + ttl);
    var m := s.entries[key := e];
    if k in m {
      EvictionAccounted(m, s'.entries, limit, s'.clock, k);
    } else {
      assert k in s.spec && k !in s.entries && k !in s.dropped;
    }
  }

  lemma SetMade(s: State, s': State, limit: nat, key: string, val: string, ttl: int)
    requires Refines(s) && Set(s, s', limit, key, val, ttl)
    ensures forall k :: k in s'.spec ==> Made(s', s'.spec[k])
  {
    hide EvictionOf, NeedsSorting;
    assert s'.made[|s.made|] == CacheEntry(|s.made|, val, s.clock + ttl);
  }

  lemma SetRefines(s: State, s': State, limit: nat, key: string, val: string, ttl: int)
    requires Refines(s) && limit >= 1 && Set(s, s', limit, key, val, ttl)
    ensures Refines(s')
  {
    SetKeepsPart(s, s', limit, key, val, ttl);
    SetMade(s, s', limit, key, val, ttl);
    forall k | k in s'.spec && k !in s'.entries && k !in s'.dropped
      ensures Expired(s'.spec[k], s'.clock)
    {
      SetMissesOnlyDropped(s, s', limit, key, val, ttl, k);
    }
    hide Set;
  }

  lemma SetBounded(s: State, s': State, limit: nat, key: string, val: string, ttl: int)
    requires Bounded(s, limit) && limit >= 1 && Set(s, s', limit, key, val, ttl)
    ensures Bounded(s', limit)
  {
    var e := CacheEntry(|s.made|, val, s.clock + ttl);
    EvictionShrinks(s.entries[key := e], s'.entries, limit, s'.clock);
    InsertSize(s.entries, key, e);
    SubMapSize(s'.entries, s.entries[key := e]);
  }

  lemma GetsLater(s: State, s': State)
    requires GetsOk(s) && s.made <= s'.made && s.clock <= s'.clock && s'.gets == s.gets
    ensures GetsOk(s')
  {
    forall i | 0 <= i < |s'.gets|
      ensures GetOk(s', s'.gets[i])
    {
      assert GetOk(s, s.gets[i]);
    }
  }

  lemma SetKeeps(s: State, s': State, limit: nat, key: string, val: string, ttl: int)
    requires Inv(s, limit) && limit >= 1 && Set(s, s', limit, key, val, ttl)
    ensures Inv(s', limit)
  {
    SetRefines(s, s', limit, key, val, ttl);
    SetBounded(s, s', limit, key, val, ttl);
    GetsLater(s, s');
  }

  lemma TickKeeps(s: State, s': State, limit: nat)
    requires Inv(s, limit) && Tick(s, s')
    ensures Inv(s', limit)
  {
    GetsLater(s, s');
  }

  lemma PurgeKeeps(s: State, s': State, limit: nat, readAt: int)
    requires Inv(s, limit) && Purge(s, s', readAt)
    ensures Inv(s', limit)
  {
    SubMapSize(s'.entries, s.entries);
    GetsLater(s, s');
  }

  lemma InvalidateKeeps(s: State, s': State, limit: nat, prefix: string)
    requires Inv(s, limit) && Invalidate(s, s', prefix)
    ensures Inv(s', limit)
  {
    SubMapSize(s'.entries, s.entries);
    GetsLater(s, s');
  }

  lemma StepKeepsInv(s: State, s': State, limit: nat)
    requires limit >= 1 && Inv(s, limit) && Next(s, s', limit)
    ensures Inv(s', limit)
  {
    hide Inv;
    if Tick(s, s') {
      TickKeeps(s, s', limit);
    } else if key, val, ttl :| Set(s, s', limit, key, val, ttl) {
      SetKeeps(s, s', limit, key, val, ttl);
    } else if readAt :| Purge(s, s', readAt) {
      PurgeKeeps(s, s', limit, readAt);
    } else if prefix :| Invalidate(s, s', prefix) {
      InvalidateKeeps(s, s', limit, prefix);
    } else if key :| GetRead(s, s', key) {
      ReadKeeps(s, s', key, limit);
    } else {
      var i: nat :| GetCheck(s, s', i) || GetDelete(s, s', i);
      if GetCheck(s, s', i) {
        CheckKeeps(s, s', i, limit);
      } else {
        DeleteKeeps(s, s', i, limit);
      }
    }
  }

  lemma ReadKeeps(s: State, s': State, key: string, limit: nat)
    requires Inv(s, limit) && GetRead(s, s', key)
    ensures Inv(s', limit)
  {
    forall i | 0 <= i < |s'.gets|
      ensures GetOk(s', s'.gets[i])
    {
      if i < |s.gets| {
        assert GetOk(s, s.gets[i]);
      }
    }
  }

  lemma CheckKeeps(s: State, s': State, i: nat, limit: nat)
    requires Inv(s, limit) && GetCheck(s, s', i)
    ensures Inv(s', limit)
  {
    assert GetOk(s, s.gets[i]);
    forall j | 0 <= j < |s'.gets|
      ensures GetOk(s', s'.gets[j])
    {
      assert GetOk(s, s.gets[j]);
    }
  }

  lemma DeleteKeeps(s: State, s': State, i: nat, limit: nat)
    requires Inv(s, limit) && GetDelete(s, s', i)
    ensures Inv(s', limit)
  {
    DeletesOnlyExpired(s, s', i);
    SubMapSize(s'.entries, s.entries);
    assert GetOk(s, s.gets[i]);
    forall j | 0 <= j < |s'.gets|
      ensures GetOk(s', s'.gets[j])
    {
      assert GetOk(s, s.gets[j]);
    }
  }

  /** The conditional delete of get never removes an entry that has not expired. */
  lemma DeletesOnlyExpired(s: State, s': State, i: nat)
    requires Refines(s) && GetsOk(s) && GetDelete(s, s', i)
    ensures forall k :: k in s.entries && k !in s'.entries ==> Expired(s.entries[k], s.clock)
  {
    assert GetOk(s, s.gets[i]);
    var g := s.gets[i];
    if g.key in s.entries && s.entries[g.key].id == g.e.id {
      assert Made(s, s.spec[g.key]);
    }
  }

  // ---- Every run ----

  ghost predicate IsRun(run: seq<State>, limit: nat) {
    && |run| > 0 && Init(run[0])
    && forall n :: 0 <= n < |run| - 1 ==> Next(run[n], run[n + 1], limit)
  }

  lemma {:induction false} RunKeepsInv(run: seq<State>, limit: nat)
    requires limit >= 1 && IsRun(run, limit)
    ensures Inv(run[|run| - 1], limit)
  {
    var n := |run| - 1;
    if n > 0 {
      RunKeepsInv(run[..n], limit);
      assert Next(run[n - 1], run[n], limit);
      StepKeepsInv(run[n - 1], run[n], limit);
    }
  }

  /**
   * In every run a hit is what the map without eviction held, unexpired, when
   * the entry was read; a miss is a miss there too, or its key was evicted.
   */
  lemma GetsAgreeWithSimpleMap(run: seq<State>, limit: nat, i: nat)
    requires limit >= 1 && IsRun(run, limit) && i < |run[|run| - 1].gets|
    ensures match run[|run| - 1].gets[i]
      case Hit(key, data, spec, readAt, _) => Lookup(spec, key, readAt) == Some(data)
      case Miss(key, spec, dropped, checkedAt) => Lookup(spec, key, checkedAt) == None || key in dropped
      case _ => true
  {
    RunKeepsInv(run, limit);
    assert GetOk(run[|run| - 1], run[|run| - 1].gets[i]);
  }

  /** Every entry made expires when the time to live after its set is over. */
  ghost predicate Lived(s: State) {
    && |s.lives| == |s.made|
    && forall i :: 0 <= i < |s.made| ==> s.made[i].id == i && s.made[i].expires == s.lives[i].setAt + s.lives[i].ttl
  }

  lemma StepKeepsLives(s: State, s': State, limit: nat)
    requires Next(s, s', limit) && Lived(s)
    ensures Lived(s')
  {
    hide EvictionOf, NeedsSorting, Unexpired;
  }

  lemma {:induction false} RunKeepsLives(run: seq<State>, limit: nat)
    requires IsRun(run, limit)
    ensures Lived(run[|run| - 1])
  {
    var n := |run| - 1;
    if n > 0 {
      RunKeepsLives(run[..n], limit);
      assert Next(run[n - 1], run[n], limit);
      StepKeepsLives(run[n - 1], run[n], limit);
    }
  }

  /**
   * In every run a hit was checked while the time to live of the value set last
   * was not over, and a miss of a key that was set, not invalidated and not
   * evicted only after it was.
   */
  lemma TimeToLiveKept(run: seq<State>, limit: nat, i: nat)
    requires limit >= 1 && IsRun(run, limit) && i < |run[|run| - 1].gets|
    ensures var s := run[|run| - 1];
      match s.gets[i]
      case Hit(key, data, spec, _, checkedAt) =>
        && key in spec && spec[key].id < |s.lives| && spec[key].data == data
        && checkedAt <= s.lives[spec[key].id].setAt + s.lives[spec[key].id].ttl
      case Miss(key, spec, dropped, checkedAt) =>
        key in spec && key !in dropped ==>
          && spec[key].id < |s.lives|
          && checkedAt > s.lives[spec[key].id].setAt + s.lives[spec[key].id].ttl
      case _ => true
  {
    RunKeepsInv(run, limit);
    RunKeepsLives(run, limit);
    hide IsRun;
    assert GetOk(run[|run| - 1], run[|run| - 1].gets[i]);
  }

  /** The set about to be made overflows the cache with unexpired entries. */
  ghost predicate Overflows(s: State, limit: nat, key: string, val: string, ttl: int, now: int) {
    NeedsSorting(s.entries[key := CacheEntry(|s.made|, val, s.clock + ttl)], limit, now)
  }

  lemma OverflowNeedsNewKeys(s: State, limit: nat, key: string, val: string, ttl: int, now: int)
    requires Bounded(s, limit) && s.sorted && Overflows(s, limit, key, val, ttl, now)
    ensures key !in s.entries && s.newKeys + 1 >= limit / 10 + 1
  {
    hide Unexpired;
    InsertSize(s.entries, key, CacheEntry(|s.made|, val, s.clock + ttl));
  }

  lemma OverflowLeavesTarget(s: State, s': State, limit: nat, key: string, val: string, ttl: int)
    requires limit >= 1 && Set(s, s', limit, key, val, ttl) && Overflows(s, limit, key, val, ttl, s'.clock)
    ensures |s'.entries| == Target(limit)
  {
    EvictionShrinks(s.entries[key := CacheEntry(|s.made|, val, s.clock + ttl)], s'.entries, limit, s'.clock);
    hide NeedsSorting, EvictionOf;
  }

  /** Between two sorting evictions lie at least limit/10 + 1 sets of absent keys. */
  lemma SortingEvictionsFarApart(run: seq<State>, limit: nat, s': State, key: string, val: string, ttl: int)
    requires limit >= 1 && IsRun(run, limit) && run[|run| - 1].sorted
    requires Set(run[|run| - 1], s', limit, key, val, ttl)
    requires Overflows(run[|run| - 1], limit, key, val, ttl, s'.clock)
    ensures var s := run[|run| - 1]; key !in s.entries && s.newKeys + 1 >= limit / 10 + 1
    ensures |s'.entries| == Target(limit)
  {
    RunKeepsInv(run, limit);
    OverflowNeedsNewKeys(run[|run| - 1], limit, key, val, ttl, s'.clock);
    OverflowLeavesTarget(run[|run| - 1], s', limit, key, val, ttl);
  }

  // ---- When the simple map itself fits ----

  ghost predicate NothingDropped(s: State) {
    && s.dropped == {}
    && forall i :: 0 <= i < |s.gets| && !s.gets[i].Hit? ==> s.gets[i].dropped == {}
  }

  lemma EvictionIdle(m: Entries, m': Entries, limit: nat, now: int)
    requires |m| <= limit && EvictionOf(m, m', limit, now)
    ensures m' == m && !NeedsSorting(m, limit, now)
  {
  }

  lemma SetDropsNothing(s: State, s': State, limit: nat, key: string, val: string, ttl: int)
    requires SubMap(s.entries, s.spec) && NothingDropped(s)
    requires Set(s, s', limit, key, val, ttl) && |s'.spec| <= limit
    ensures NothingDropped(s') && s'.entries == s.entries[key := s'.spec[key]]
  {
    var m := s.entries[key := CacheEntry(|s.made|, val, s.clock + ttl)];
    SubMapSize(m, s'.spec);
    EvictionIdle(m, s'.entries, limit, s'.clock);
    hide EvictionOf;
    hide NeedsSorting;
  }

  lemma GetStepDropsNothing(s: State, s': State)
    requires NothingDropped(s)
    requires (exists key :: GetRead(s, s', key)) || (exists i: nat :: GetCheck(s, s', i) || GetDelete(s, s', i))
    ensures NothingDropped(s')
  {
  }

  lemma StepDropsNothing(s: State, s': State, limit: nat)
    requires Refines(s) && NothingDropped(s) && Next(s, s', limit) && |s'.spec| <= limit
    ensures NothingDropped(s')
  {
    if key, val, ttl :| Set(s, s', limit, key, val, ttl) {
      SetDropsNothing(s, s', limit, key, val, ttl);
    } else if Tick(s, s') || (exists readAt :: Purge(s, s', readAt)) || exists prefix :: Invalidate(s, s', prefix) {
      assert s'.gets == s.gets && s'.dropped == s.dropped;
    } else {
      GetStepDropsNothing(s, s');
    }
  }

  lemma {:induction false} FittingRunDropsNothing(run: seq<State>, limit: nat)
    requires limit >= 1 && IsRun(run, limit)
    requires forall n :: 0 <= n < |run| ==> |run[n].spec| <= limit
    ensures NothingDropped(run[|run| - 1])
  {
    var n := |run| - 1;
    if n > 0 {
      FittingRunDropsNothing(run[..n], limit);
      RunKeepsInv(run[..n], limit);
      assert Next(run[n - 1], run[n], limit);
      StepDropsNothing(run[n - 1], run[n], limit);
    }
  }

  /** While the simple map never outgrows the limit, every miss is a miss there too. */
  lemma FittingRunIsExact(run: seq<State>, limit: nat, i: nat)
    requires limit >= 1 && IsRun(run, limit) && i < |run[|run| - 1].gets|
    requires forall n :: 0 <= n < |run| ==> |run[n].spec| <= limit
    ensures match run[|run| - 1].gets[i]
      case Hit(key, data, spec, readAt, _) => Lookup(spec, key, readAt) == Some(data)
      case Miss(key, spec, dropped, checkedAt) => Lookup(spec, key, checkedAt) == None
      case _ => true
  {
    GetsAgreeWithSimpleMap(run, limit, i);
    FittingRunDropsNothing(run, limit);
  }
}
