// The per-IP rate limiter, against the history of requests it has seen.
module RateLimiter {

  /** tokens may go below zero only when rate does; lastSeen is in nanoseconds. */
  datatype Visitor = Visitor(tokens: int, lastSeen: int)

  type Visitors = map<string, Visitor>

  class Limiter {
    const rate: int
    const window: nat
    var visitors: Visitors

    constructor (rate: int, window: nat)
      ensures this.rate == rate && this.window == window && visitors == map[]
    {
      this.rate, this.window := rate, window;
      visitors := map[];
    }

    method Allow(ip: string, now: int) returns (ok: bool)
      modifies this`visitors
      ensures (visitors, ok) == Request(old(visitors), rate, window, ip, now)
    {
      if ip !in visitors || now - visitors[ip].lastSeen > window {
        visitors := visitors[ip := Visitor(rate - 1, now)];
        return true;
      }
      var v := visitors[ip];
      visitors := visitors[ip := v.(lastSeen := now)];
      if v.tokens > 0 {
        visitors := visitors[ip := Visitor(v.tokens - 1, now)];
        assert visitors == old(visitors)[ip := Visitor(v.tokens - 1, now)];
        return true;
      }
      return false;
    }

    /** One tick of the cleanup loop; the clock is read anew for each visitor. */
    method Cleanup(readings: map<string, int>, now: int)
      modifies this`visitors
      ensures visitors == Cleaned(old(visitors), window, readings, now)
      ensures forall ip :: ip in visitors <==>
                ip in old(visitors)
                && (if ip in readings then readings[ip] else now) <= old(visitors)[ip].lastSeen + 3 * window
      ensures forall ip :: ip in visitors ==> visitors[ip] == old(visitors)[ip]
    {
      var todo := visitors.Keys;
      while todo != {}
        invariant todo <= old(visitors).Keys
        invariant forall ip :: ip in visitors <==>
                    ip in old(visitors)
                    && (ip in todo || ReadFor(readings, now, ip) - old(visitors)[ip].lastSeen <= window * 3)
        invariant forall ip :: ip in visitors ==> visitors[ip] == old(visitors)[ip]
        decreases todo
      {
        var ip :| ip in todo;
        if ReadFor(readings, now, ip) - visitors[ip].lastSeen > window * 3 {
          visitors := visitors - {ip};
        }
        todo := todo - {ip};
      }
    }
  }

  /** The reading for one visitor: its own, or that of the end of the tick. */
  function ReadFor(readings: map<string, int>, now: int, ip: string): int {
    if ip in readings then readings[ip] else now
  }

  function Request(v: Visitors, rate: int, window: nat, ip: string, now: int): (Visitors, bool) {
    if ip !in v || now - v[ip].lastSeen > window then (v[ip := Visitor(rate - 1, now)], true)
    else if v[ip].tokens > 0 then (v[ip := Visitor(v[ip].tokens - 1, now)], true)
    else (v[ip := v[ip].(lastSeen := now)], false)
  }

  function Cleaned(v: Visitors, window: nat, readings: map<string, int>, now: int): Visitors {
    map ip | ip in v && ReadFor(readings, now, ip) - v[ip].lastSeen <= window * 3 :: v[ip]
  }

  // ---- Runs ----

  /** now is the reading of a request, and the last one of a cleanup. */
  datatype Op = Ask(ip: string, now: int) | Clean(readings: map<string, int>, now: int)

  function Step(v: Visitors, rate: int, window: nat, op: Op): (Visitors, bool) {
    match op
    case Ask(ip, now) => Request(v, rate, window, ip, now)
    case Clean(readings, now) => (Cleaned(v, window, readings, now), false)
  }

  function After(rate: int, window: nat, ops: seq<Op>): Visitors {
    if ops == [] then map[] else Step(After(rate, window, ops[..|ops| - 1]), rate, window, ops[|ops| - 1]).0
  }

  /** The limiter's answer to operation n of a run. */
  predicate Allowed(rate: int, window: nat, ops: seq<Op>, n: nat)
    requires n < |ops|
  {
    Step(After(rate, window, ops[..n]), rate, window, ops[n]).1
  }

  ghost predicate Clocked(ops: seq<Op>) {
    && (forall i, j :: 0 <= i < j < |ops| ==> ops[i].now <= ops[j].now)
    && (forall i, ip :: 0 <= i < |ops| && ops[i].Clean? && ip in ops[i].readings ==> ops[i].readings[ip] <= ops[i].now)
  }

  predicate Asks(op: Op, ip: string) {
    op.Ask? && op.ip == ip
  }

  // ---- The reference: unbroken streaks of requests ----

  /** The time of the last request of ip, if any. */
  function LastAsk(ops: seq<Op>, ip: string): (r: seq<int>)
    ensures |r| <= 1
  {
    if ops == [] then []
    else if Asks(ops[|ops| - 1], ip) then [ops[|ops| - 1].now]
    else LastAsk(ops[..|ops| - 1], ip)
  }

  /**
   * How many requests of ip came since it last paused for more than the window.
   * A request after such a pause, or a first one, starts again at 1.
   */
  function Streak(ops: seq<Op>, window: nat, ip: string): nat {
    if ops == [] then 0
    else
      var before, op := ops[..|ops| - 1], ops[|ops| - 1];
      if !Asks(op, ip) then Streak(before, window, ip)
      else
        var last := LastAsk(before, ip);
        if last == [] || op.now - last[0] > window then 1 else Streak(before, window, ip) + 1
  }

  function AtLeastOne(rate: int): nat {
    if rate < 1 then 1 else rate
  }

  /** What the map knows of ip: its last request and what the streak has left, unless it paused long ago. */
  ghost predicate Tracks(v: Visitors, rate: int, window: nat, ops: seq<Op>, ip: string, now: int) {
    var last := LastAsk(ops, ip);
    && (ip in v ==>
          && last != [] && v[ip].lastSeen == last[0]
          && v[ip].tokens == (if rate - Streak(ops, window, ip) > 0 then rate - Streak(ops, window, ip)
                              else if rate < 1 then rate - 1 else 0))
    && (ip !in v && last != [] ==> now - last[0] > window)
  }

  lemma {:induction false} MapTracksHistory(rate: int, window: nat, ops: seq<Op>, ip: string)
    requires Clocked(ops)
    ensures LastAsk(ops, ip) != [] ==> ops != [] && LastAsk(ops, ip)[0] <= ops[|ops| - 1].now
    ensures Streak(ops, window, ip) >= 1 <==> LastAsk(ops, ip) != []
    ensures ops != [] ==> Tracks(After(rate, window, ops), rate, window, ops, ip, ops[|ops| - 1].now)
    ensures ops == [] ==> After(rate, window, ops) == map[]
  {
    if ops != [] {
      var n := |ops| - 1;
      MapTracksHistory(rate, window, ops[..n], ip);
      if n > 0 {
        assert ops[n - 1].now <= ops[n].now;
      }
    }
  }

  /**
   * A request is allowed exactly while its streak is no longer than the rate; a
   * rate below 1 still lets the first request of a streak pass. Cleanups at
   * any moments change no answer.
   */
  lemma AllowedIffStreakShort(rate: int, window: nat, ops: seq<Op>, n: nat)
    requires Clocked(ops) && n < |ops| && ops[n].Ask?
    ensures Allowed(rate, window, ops, n) <==> Streak(ops[..n + 1], window, ops[n].ip) <= AtLeastOne(rate)
  {
    var ip := ops[n].ip;
    MapTracksHistory(rate, window, ops[..n], ip);
    assert ops[..n + 1][..n] == ops[..n];
    if n > 0 {
      assert ops[n - 1].now <= ops[n].now;
    }
  }

  /** The run with its cleanups taken out. */
  function WithoutCleanups(ops: seq<Op>): seq<Op> {
    if ops == [] then []
    else WithoutCleanups(ops[..|ops| - 1]) + (if ops[|ops| - 1].Ask? then [ops[|ops| - 1]] else [])
  }

  lemma {:induction false} StreakIgnoresCleanups(ops: seq<Op>, window: nat, ip: string)
    ensures LastAsk(WithoutCleanups(ops), ip) == LastAsk(ops, ip)
    ensures Streak(WithoutCleanups(ops), window, ip) == Streak(ops, window, ip)
  {
    if ops != [] {
      var n := |ops| - 1;
      StreakIgnoresCleanups(ops[..n], window, ip);
      var r := WithoutCleanups(ops[..n]);
      assert (r + [ops[n]])[..|r|] == r && r + [] == r;
    }
  }

  lemma {:induction false} WithoutCleanupsClocked(ops: seq<Op>)
    requires Clocked(ops)
    ensures Clocked(WithoutCleanups(ops))
    ensures WithoutCleanups(ops) != [] ==> ops != [] && forall i :: 0 <= i < |WithoutCleanups(ops)| ==>
              WithoutCleanups(ops)[i].now <= ops[|ops| - 1].now
  {
    if ops != [] {
      WithoutCleanupsClocked(ops[..|ops| - 1]);
    }
  }

  /** Running the cleanup, at any moments and any number of times, changes no answer. */
  lemma CleanupsChangeNoAnswer(rate: int, window: nat, ops: seq<Op>)
    requires Clocked(ops) && ops != [] && ops[|ops| - 1].Ask?
    ensures WithoutCleanups(ops) != []
    ensures Allowed(rate, window, WithoutCleanups(ops), |WithoutCleanups(ops)| - 1)
            == Allowed(rate, window, ops, |ops| - 1)
  {
    var r := WithoutCleanups(ops);
    WithoutCleanupsClocked(ops);
    AllowedIffStreakShort(rate, window, ops, |ops| - 1);
    AllowedIffStreakShort(rate, window, r, |r| - 1);
    assert ops[..|ops|] == ops && r[..|r|] == r;
    StreakIgnoresCleanups(ops, window, ops[|ops| - 1].ip);
  }

  // ---- Sliding intervals ----

  /** Allowed requests of ip in the closed interval from lo to hi. */
  function AllowedWithin(rate: int, window: nat, ops: seq<Op>, ip: string, lo: int, hi: int): nat {
    if ops == [] then 0
    else
      var n := |ops| - 1;
      AllowedWithin(rate, window, ops[..n], ip, lo, hi)
      + (if Asks(ops[n], ip) && lo <= ops[n].now <= hi && Allowed(rate, window, ops, n) then 1 else 0)
  }

  /** Inside an interval no longer than the window the allowed requests belong to one streak. */
  lemma {:induction false} AllowedWithinStreak(rate: int, window: nat, ops: seq<Op>, ip: string, lo: int, hi: int)
    requires Clocked(ops) && hi - lo <= window
    ensures AllowedWithin(rate, window, ops, ip, lo, hi) <= AtLeastOne(rate)
    ensures LastAsk(ops, ip) != [] && LastAsk(ops, ip)[0] <= hi ==>
              AllowedWithin(rate, window, ops, ip, lo, hi) <= Streak(ops, window, ip)
    ensures AllowedWithin(rate, window, ops, ip, lo, hi) > 0 ==> LastAsk(ops, ip) != [] && lo <= LastAsk(ops, ip)[0]
  {
    if ops != [] {
      var n := |ops| - 1;
      AllowedWithinStreak(rate, window, ops[..n], ip, lo, hi);
      MapTracksHistory(rate, window, ops[..n], ip);
      if Asks(ops[n], ip) {
        AllowedIffStreakShort(rate, window, ops, n);
        assert ops[..n + 1] == ops;
        if n > 0 {
          assert ops[n - 1].now <= ops[n].now;
        }
      }
    }
  }

  /**
   * In any run, with cleanups at any moments, a closed interval as long as the
   * window holds at most rate allowed requests of an IP, for rate at least 1.
   */
  lemma AtMostRatePerWindow(rate: int, window: nat, ops: seq<Op>, ip: string, lo: int)
    requires Clocked(ops) && rate >= 1
    ensures AllowedWithin(rate, window, ops, ip, lo, lo + window) <= rate
  {
    AllowedWithinStreak(rate, window, ops, ip, lo, lo + window);
  }

  ghost predicate RateKept(rate: int, window: nat) {
    forall ops, ip, lo, hi :: Clocked(ops) && hi == lo + window ==> AllowedWithin(rate, window, ops, ip, lo, hi) <= rate
  }

  /** At a rate of 0, or below, a first request still passes. */
  lemma RateBelowOneLetsOnePass(rate: int, window: nat, ops: seq<Op>)
    requires rate < 1 && ops == [Ask("a", 0)]
    ensures Clocked(ops) && AllowedWithin(rate, window, ops, "a", 0, window) == 1 > rate
  {
    assert ops[..0] == [];
    assert Allowed(rate, window, ops, 0);
  }

  /** The limit holds in all runs exactly for rates of at least 1: below that one request still passes. */
  lemma RateKeptIff(rate: int, window: nat)
    ensures RateKept(rate, window) <==> rate >= 1
  {
    if rate >= 1 {
      forall ops, ip, lo, hi | Clocked(ops) && hi == lo + window
        ensures AllowedWithin(rate, window, ops, ip, lo, hi) <= rate
      {
        AtMostRatePerWindow(rate, window, ops, ip, lo);
      }
    } else {
      RateBelowOneLetsOnePass(rate, window, [Ask("a", 0)]);
    }
  }
}
