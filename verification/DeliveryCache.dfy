// Replay defence for webhook deliveries, against a set that never forgets.
module DeliveryCache {

  /** webhookDeliveryWindow: 24 hours in nanoseconds. */
  const WINDOW: nat := 24 * 60 * 60 * 1_000_000_000

  type Seen = map<string, int>

  class SeenCache {
    var entries: Seen

    constructor ()
      ensures entries == map[]
    {
      entries := map[];
    }

    /** True for a duplicate; otherwise the id is recorded and stale ids are dropped. */
    method SeenOrRecord(id: string, now: int) returns (seen: bool)
      modifies this
      ensures (entries, seen) == Deliver(old(entries), id, now)
    {
      if id == "" {
        return false;
      }
      var cutoff := now - WINDOW;
      if id in entries && entries[id] > cutoff {
        return true;
      }
      var todo := entries.Keys;
      while todo != {}
        invariant todo <= old(entries).Keys
        invariant forall k :: k in entries <==> k in old(entries) && (k in todo || old(entries)[k] >= cutoff)
        invariant forall k :: k in entries ==> entries[k] == old(entries)[k]
        decreases todo
      {
        var k :| k in todo;
        if entries[k] < cutoff {
          entries := entries - {k};
        }
        todo := todo - {k};
      }
      assert entries == Kept(old(entries), cutoff);
      entries := entries[id := now];
      return false;
    }
  }

  function Kept(entries: Seen, cutoff: int): Seen {
    map k | k in entries && entries[k] >= cutoff :: entries[k]
  }

  function Deliver(entries: Seen, id: string, now: int): (Seen, bool) {
    if id == "" then (entries, false)
    else if id in entries && entries[id] > now - WINDOW then (entries, true)
    else (Kept(entries, now - WINDOW)[id := now], false)
  }

  /** The set that never forgets: the last time each id was accepted. */
  function DeliverSimple(accepted: Seen, id: string, now: int): (Seen, bool) {
    if id == "" then (accepted, false)
    else if id in accepted && now - accepted[id] < WINDOW then (accepted, true)
    else (accepted[id := now], false)
  }

  datatype Delivery = Delivery(id: string, now: int)

  function After(ds: seq<Delivery>): Seen {
    if ds == [] then map[] else Deliver(After(ds[..|ds| - 1]), ds[|ds| - 1].id, ds[|ds| - 1].now).0
  }

  function AfterSimple(ds: seq<Delivery>): Seen {
    if ds == [] then map[] else DeliverSimple(AfterSimple(ds[..|ds| - 1]), ds[|ds| - 1].id, ds[|ds| - 1].now).0
  }

  /** Whether delivery n of a run is answered as a duplicate. */
  predicate Duplicate(ds: seq<Delivery>, n: nat)
    requires n < |ds|
  {
    Deliver(After(ds[..n]), ds[n].id, ds[n].now).1
  }

  predicate DuplicateSimple(ds: seq<Delivery>, n: nat)
    requires n < |ds|
  {
    DeliverSimple(AfterSimple(ds[..n]), ds[n].id, ds[n].now).1
  }

  // ---- Clock readings ----

  /** ts are the readings of ds, in the order in which the lock was taken. */
  ghost predicate At(ds: seq<Delivery>, ts: seq<int>) {
    |ds| == |ts| && forall i :: 0 <= i < |ts| ==> ds[i].now == ts[i]
  }

  /** No reading falls before an expiry that an earlier reading was already past. */
  ghost predicate ExpiriesStay(ts: seq<int>) {
    forall i, j, k :: 0 <= i < j < k < |ts| ==> !(ts[k] < ts[i] + WINDOW < ts[j])
  }

  ghost predicate Clocked(ts: seq<int>) {
    forall i, j :: 0 <= i < j < |ts| ==> ts[i] <= ts[j]
  }

  lemma ClockedExpiriesStay(ts: seq<int>)
    requires Clocked(ts)
    ensures ExpiriesStay(ts)
  {
    assert forall j, k :: 0 <= j < k < |ts| ==> ts[j] <= ts[k];
  }

  // ---- The cache against the simple set ----

  /** An acceptance at reading t, among the first n, is past its window for some later one of them. */
  ghost predicate Outlived(ts: seq<int>, n: nat, t: int)
    requires n <= |ts|
  {
    exists i, j :: 0 <= i < j < n && ts[i] == t && t + WINDOW < ts[j]
  }

  ghost predicate Read(ts: seq<int>, n: nat, t: int)
    requires n <= |ts|
  {
    exists i :: 0 <= i < n && ts[i] == t
  }

  /** The cache is the simple set less ids whose acceptance was outlived. */
  ghost predicate Follows(entries: Seen, accepted: Seen, ts: seq<int>, n: nat)
    requires n <= |ts|
  {
    && (forall k :: k in entries ==> k in accepted && entries[k] == accepted[k])
    && (forall k :: k in accepted && k !in entries ==> Outlived(ts, n, accepted[k]))
    && (forall k :: k in accepted ==> Read(ts, n, accepted[k]))
  }

  lemma LaterStill(ts: seq<int>, n: nat, t: int)
    requires n < |ts|
    ensures Outlived(ts, n, t) ==> Outlived(ts, n + 1, t)
    ensures Read(ts, n, t) ==> Read(ts, n + 1, t)
    ensures Read(ts, n, t) && t + WINDOW < ts[n] ==> Outlived(ts, n + 1, t)
    ensures Read(ts, n + 1, ts[n])
  {
  }

  lemma OutlivedStays(ts: seq<int>, n: nat, t: int)
    requires n < |ts| && ExpiriesStay(ts) && Outlived(ts, n, t)
    ensures ts[n] >= t + WINDOW
  {
    var i, j :| 0 <= i < j < n && ts[i] == t && t + WINDOW < ts[j];
    assert i < j < n < |ts|;
  }

  lemma SameAnswer(entries: Seen, accepted: Seen, ts: seq<int>, n: nat, id: string)
    requires n < |ts| && ExpiriesStay(ts) && Follows(entries, accepted, ts, n)
    ensures Deliver(entries, id, ts[n]).1 == DeliverSimple(accepted, id, ts[n]).1
  {
    hide Outlived, Read, ExpiriesStay;
    if id in accepted && id !in entries {
      OutlivedStays(ts, n, accepted[id]);
    }
  }

  lemma FollowsLater(entries: Seen, accepted: Seen, ts: seq<int>, n: nat)
    requires n < |ts| && Follows(entries, accepted, ts, n)
    ensures Follows(entries, accepted, ts, n + 1) && Follows(Kept(entries, ts[n] - WINDOW), accepted, ts, n + 1)
  {
    hide Outlived, Read;
    forall k | k in accepted
      ensures Read(ts, n + 1, accepted[k])
      ensures Outlived(ts, n, accepted[k]) || accepted[k] + WINDOW < ts[n] ==> Outlived(ts, n + 1, accepted[k])
    {
      LaterStill(ts, n, accepted[k]);
    }
  }

  /** One delivery: both give the same answer, and the cache goes on following. */
  lemma DeliverFollows(entries: Seen, accepted: Seen, ts: seq<int>, n: nat, id: string)
    requires n < |ts| && ExpiriesStay(ts) && Follows(entries, accepted, ts, n)
    ensures Deliver(entries, id, ts[n]).1 == DeliverSimple(accepted, id, ts[n]).1
    ensures Follows(Deliver(entries, id, ts[n]).0, DeliverSimple(accepted, id, ts[n]).0, ts, n + 1)
  {
    SameAnswer(entries, accepted, ts, n, id);
    FollowsLater(entries, accepted, ts, n);
    AcceptFollows(Kept(entries, ts[n] - WINDOW), accepted, ts, n, id);
    hide Follows, Kept;
  }

  lemma AcceptFollows(entries: Seen, accepted: Seen, ts: seq<int>, n: nat, id: string)
    requires n < |ts| && Follows(entries, accepted, ts, n + 1)
    ensures Follows(entries[id := ts[n]], accepted[id := ts[n]], ts, n + 1)
  {
    LaterStill(ts, n, ts[n]);
    hide Outlived, Read;
  }

  lemma {:induction false} CacheFollows(ds: seq<Delivery>, ts: seq<int>, n: nat)
    requires At(ds, ts) && ExpiriesStay(ts) && n <= |ds|
    ensures Follows(After(ds[..n]), AfterSimple(ds[..n]), ts, n)
  {
    if n > 0 {
      CacheFollows(ds, ts, n - 1);
      hide Follows, ExpiriesStay, Deliver, DeliverSimple;
      DeliverFollows(After(ds[..n - 1]), AfterSimple(ds[..n - 1]), ts, n - 1, ds[n - 1].id);
      DeliverNext(ds, n - 1);
    }
  }

  /** Dropping stale ids changes no answer, as long as no reading falls back across an expiry. */
  lemma CleanupInvisible(ds: seq<Delivery>, ts: seq<int>, n: nat)
    requires At(ds, ts) && ExpiriesStay(ts) && n < |ds|
    ensures Duplicate(ds, n) == DuplicateSimple(ds, n)
  {
    CacheFollows(ds, ts, n);
    DeliverFollows(After(ds[..n]), AfterSimple(ds[..n]), ts, n, ds[n].id);
  }

  /** An accepted id is remembered with its last acceptance. */
  lemma {:induction false} AcceptedRemembered(ds: seq<Delivery>, i: nat, n: nat)
    requires i < n <= |ds| && ds[i].id != "" && !DuplicateSimple(ds, i)
    ensures ds[i].id in AfterSimple(ds[..n])
    ensures AfterSimple(ds[..n])[ds[i].id] >= ds[i].now
    decreases n
  {
    assert ds[..n][..n - 1] == ds[..n - 1];
    if i < n - 1 {
      AcceptedRemembered(ds, i, n - 1);
    }
  }

  /** Two accepted deliveries of one id are at least the window apart; any other repeat is a duplicate. */
  lemma AcceptedFarApart(ds: seq<Delivery>, ts: seq<int>, i: nat, k: nat)
    requires At(ds, ts) && ExpiriesStay(ts) && i < k < |ds| && ds[i].id == ds[k].id != ""
    requires !Duplicate(ds, i) && !Duplicate(ds, k)
    ensures ds[k].now - ds[i].now >= 86_400_000_000_000
  {
    CleanupInvisible(ds, ts, i);
    CleanupInvisible(ds, ts, k);
    AcceptedRemembered(ds, i, k);
  }

  /** Delivery i was accepted with this id, less than 24 hours before now. */
  ghost predicate AcceptedRecently(ds: seq<Delivery>, i: nat, id: string, now: int) {
    i < |ds| && ds[i].id == id && !Duplicate(ds, i) && now - ds[i].now < 86_400_000_000_000
  }

  /** What one delivery leaves for an id: its own reading, or what was there. */
  lemma AcceptanceStep(accepted: Seen, id: string, now: int, k: string)
    requires k in DeliverSimple(accepted, id, now).0
    ensures var (after, seen) := DeliverSimple(accepted, id, now);
            (k == id != "" && !seen && after[k] == now) || (k in accepted && after[k] == accepted[k])
  {
  }

  lemma {:induction false} LastAcceptance(ds: seq<Delivery>, n: nat, id: string) returns (i: nat)
    requires n <= |ds| && id in AfterSimple(ds[..n])
    ensures i < n && ds[i].id == id != "" && !DuplicateSimple(ds, i) && ds[i].now == AfterSimple(ds[..n])[id]
  {
    EmptyAtFirst(ds);
    DeliverNext(ds, n - 1);
    hide After, AfterSimple, Deliver, DeliverSimple;
    AcceptanceStep(AfterSimple(ds[..n - 1]), ds[n - 1].id, ds[n - 1].now, id);
    if ds[n - 1].id == id != "" && !DuplicateSimple(ds, n - 1) && AfterSimple(ds[..n])[id] == ds[n - 1].now {
      i := n - 1;
    } else {
      i := LastAcceptance(ds, n - 1, id);
    }
  }

  /** A delivery is answered as a duplicate exactly when one with its id was accepted less than the window ago. */
  lemma DuplicateIff(ds: seq<Delivery>, ts: seq<int>, n: nat)
    requires At(ds, ts) && ExpiriesStay(ts) && n < |ds| && ds[n].id != ""
    ensures Duplicate(ds, n) <==> exists i: nat :: i < n && AcceptedRecently(ds, i, ds[n].id, ds[n].now)
  {
    CleanupInvisible(ds, ts, n);
    var accepted := AfterSimple(ds[..n]);
    if ds[n].id in accepted {
      var i := LastAcceptance(ds, n, ds[n].id);
      CleanupInvisible(ds, ts, i);
      if Duplicate(ds, n) {
        assert AcceptedRecently(ds, i, ds[n].id, ds[n].now);
      }
    }
    if i: nat :| i < n && AcceptedRecently(ds, i, ds[n].id, ds[n].now) {
      CleanupInvisible(ds, ts, i);
      AcceptedRemembered(ds, i, n);
    }
  }

  /** A delivery without an id is never a duplicate. */
  lemma EmptyIdAccepted(ds: seq<Delivery>, n: nat)
    requires n < |ds| && ds[n].id == ""
    ensures !Duplicate(ds, n) && After(ds[..n + 1]) == After(ds[..n])
  {
    assert ds[..n + 1][..n] == ds[..n];
  }

  // ---- The exact condition on the readings ----

  ghost predicate AlwaysAgrees(ts: seq<int>) {
    forall ds: seq<Delivery>, n: nat :: At(ds, ts) && n < |ds| ==> Duplicate(ds, n) == DuplicateSimple(ds, n)
  }

  /** Deliveries i and k carry one id and are both accepted. */
  ghost predicate BothAccepted(ds: seq<Delivery>, i: nat, k: nat) {
    i < k < |ds| && ds[i].id == ds[k].id != "" && !Duplicate(ds, i) && !Duplicate(ds, k)
  }

  ghost predicate AlwaysFarApart(ts: seq<int>) {
    forall ds: seq<Delivery>, i: nat, k: nat ::
      At(ds, ts) && BothAccepted(ds, i, k) ==> ds[k].now - ds[i].now >= WINDOW
  }

  /** Id "a" at i and k, "b" between them at j, no id elsewhere. */
  function Witness(ts: seq<int>, i: nat, j: nat, k: nat): (ds: seq<Delivery>)
    ensures At(ds, ts)
    ensures forall n :: 0 <= n < |ts| ==> ds[n].id == (if n == i || n == k then "a" else if n == j then "b" else "")
  {
    seq(|ts|, n requires 0 <= n < |ts| => Delivery(if n == i || n == k then "a" else if n == j then "b" else "", ts[n]))
  }

  lemma {:induction false} NoIdsNoChange(ds: seq<Delivery>, m: nat, n: nat)
    requires m <= n <= |ds| && forall i :: m <= i < n ==> ds[i].id == ""
    ensures After(ds[..n]) == After(ds[..m]) && AfterSimple(ds[..n]) == AfterSimple(ds[..m])
  {
    if m < n {
      NoIdsNoChange(ds, m, n - 1);
      assert ds[..n][..n - 1] == ds[..n - 1];
    }
  }

  /** A reading back across an expiry that was passed: "a" is forgotten, and accepted twice within the window. */
  lemma FallingBackForgets(ts: seq<int>, i: nat, j: nat, k: nat)
    requires i < j < k < |ts| && ts[k] < ts[i] + WINDOW < ts[j]
    ensures var ds := Witness(ts, i, j, k); !Duplicate(ds, i) && !Duplicate(ds, k) && DuplicateSimple(ds, k)
  {
    var ds := Witness(ts, i, j, k);
    BothRemembered(ds, i, j, k);
    hide After, AfterSimple;
  }

  lemma DeliverNext(ds: seq<Delivery>, n: nat)
    requires n < |ds|
    ensures After(ds[..n + 1]) == Deliver(After(ds[..n]), ds[n].id, ds[n].now).0
    ensures AfterSimple(ds[..n + 1]) == DeliverSimple(AfterSimple(ds[..n]), ds[n].id, ds[n].now).0
  {
    assert ds[..n + 1][..n] == ds[..n];
  }

  lemma BothRemembered(ds: seq<Delivery>, i: nat, j: nat, k: nat)
    requires i < j < k < |ds| && ds[i].id == "a" && ds[j].id == "b" && ds[i].now + WINDOW < ds[j].now
    requires forall n :: 0 <= n < k && n != i && n != j ==> ds[n].id == ""
    ensures After(ds[..i]) == map[] && After(ds[..k]) == map["b" := ds[j].now]
    ensures AfterSimple(ds[..k]) == map["a" := ds[i].now, "b" := ds[j].now]
  {
    hide After, AfterSimple;
    NoIdsNoChange(ds, 0, i);
    assert After(ds[..0]) == map[] == AfterSimple(ds[..0]) by { EmptyAtFirst(ds); }
    DeliverNext(ds, i);
    NoIdsNoChange(ds, i + 1, j);
    assert After(ds[..j]) == map["a" := ds[i].now] == AfterSimple(ds[..j]);
    DeliverNext(ds, j);
    assert After(ds[..j + 1]) == map["b" := ds[j].now];
    NoIdsNoChange(ds, j + 1, k);
  }

  lemma EmptyAtFirst(ds: seq<Delivery>)
    ensures After(ds[..0]) == map[] == AfterSimple(ds[..0])
  {
  }

  /**
   * For given readings every answer to every choice of ids is that of the set
   * that never forgets, and repeats are accepted only a window apart, exactly
   * when no reading falls before an expiry that an earlier one was past.
   */
  lemma AgreesIff(ts: seq<int>)
    ensures AlwaysAgrees(ts) <==> ExpiriesStay(ts)
    ensures AlwaysFarApart(ts) <==> ExpiriesStay(ts)
  {
    if ExpiriesStay(ts) {
      forall ds: seq<Delivery>, n: nat | At(ds, ts) && n < |ds|
        ensures Duplicate(ds, n) == DuplicateSimple(ds, n)
      {
        CleanupInvisible(ds, ts, n);
      }
      forall ds: seq<Delivery>, i: nat, k: nat | At(ds, ts) && BothAccepted(ds, i, k)
        ensures ds[k].now - ds[i].now >= WINDOW
      {
        AcceptedFarApart(ds, ts, i, k);
      }
    } else {
      var i, j, k :| 0 <= i < j < k < |ts| && ts[k] < ts[i] + WINDOW < ts[j];
      FallingBackForgets(ts, i, j, k);
      var ds := Witness(ts, i, j, k);
      assert At(ds, ts) && BothAccepted(ds, i, k);
    }
  }

  /** Two nanoseconds back across an expiry are enough. */
  lemma TwoNanosecondsBackForget(ts: seq<int>)
    requires ts == [0, WINDOW + 1, WINDOW - 1]
    ensures !ExpiriesStay(ts) && !AlwaysAgrees(ts) && !AlwaysFarApart(ts)
  {
    assert ts[2] < ts[0] + WINDOW < ts[1];
    AgreesIff(ts);
  }
}
