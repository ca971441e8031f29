// Round-robin selection of API tokens with timed exhaustion.
module TokenPool {
  import opened Options

  /** exhaustedUntil[i] is None for the zero time. Times are in nanoseconds. */
  predicate Exhausted(until: Option<int>, now: int) {
    until.Some? && now < until.value
  }

  /** A token is in rotation unless it was taken out, and from the moment its window has passed. */
  ghost predicate InRotation(until: Option<int>, now: int) {
    until.None? || until.value <= now
  }

  /** Which tokens are in rotation at a moment. */
  function Active(exhaustedUntil: seq<Option<int>>, now: int): (a: seq<bool>)
    ensures |a| == |exhaustedUntil|
    ensures forall i :: 0 <= i < |a| ==> (a[i] <==> InRotation(exhaustedUntil[i], now))
  {
    seq(|exhaustedUntil|, i requires 0 <= i < |exhaustedUntil| => !Exhausted(exhaustedUntil[i], now))
  }

  /** How many positions after start, going round, i is reached. */
  function Distance(start: nat, i: nat, n: nat): (d: nat)
    requires start < n && i < n
    ensures d < n && Wrap(start + d, n) == i
  {
    if i >= start then i - start else i + n - start
  }

  /** The clock is read anew at each position: nows[d] when the d-th one after start is looked at. */
  function ActiveWhenReached(exhaustedUntil: seq<Option<int>>, start: nat, nows: seq<int>): (a: seq<bool>)
    requires |nows| == |exhaustedUntil| && (exhaustedUntil == [] || start < |exhaustedUntil|)
    ensures |a| == |exhaustedUntil|
    ensures forall i :: 0 <= i < |a| ==>
              (a[i] <==> InRotation(exhaustedUntil[i], nows[Distance(start, i, |nows|)]))
  {
    seq(|exhaustedUntil|, i requires 0 <= i < |exhaustedUntil| =>
      !Exhausted(exhaustedUntil[i], nows[Distance(start, i, |nows|)]))
  }

  lemma FoundActive(exhaustedUntil: seq<Option<int>>, start: nat, nows: seq<int>, d: nat)
    requires |nows| == |exhaustedUntil| && start < |nows| && d < |nows|
    ensures var i := Wrap(start + d, |nows|);
            && Distance(start, i, |nows|) == d
            && |ActiveWhenReached(exhaustedUntil, start, nows)| == |nows|
            && (ActiveWhenReached(exhaustedUntil, start, nows)[i] <==> !Exhausted(exhaustedUntil[i], nows[d]))
  {
  }

  /** With readings that agree this is what is in rotation at that moment. */
  lemma SteadyReadings(exhaustedUntil: seq<Option<int>>, start: nat, nows: seq<int>, now: int)
    requires |nows| == |exhaustedUntil| && (exhaustedUntil == [] || start < |exhaustedUntil|)
    requires forall d :: 0 <= d < |nows| ==> nows[d] == now
    ensures ActiveWhenReached(exhaustedUntil, start, nows) == Active(exhaustedUntil, now)
  {
  }

  // ---- The rotation: active positions in the order Token will reach them ----

  /** i reduced modulo n, for i within two turns. */
  function Wrap(i: nat, n: nat): (r: nat)
    requires i < 2 * n
    ensures r < n
  {
    if i < n then i else i - n
  }

  lemma WrapIsModulo(i: nat, n: nat)
    requires i < n
    ensures (i + 1) % n == Wrap(i + 1, n)
  {
    if i + 1 == n {
      assert n % n == 0;
    }
  }

  method Following(idx: nat, n: nat) returns (next: nat)
    requires idx < n
    ensures next == Wrap(idx + 1, n)
  {
    next := (idx + 1) % n;
    WrapIsModulo(idx, n);
  }

  /** The active ones among the k positions from start on, going round. */
  function Rotation(a: seq<bool>, start: nat, k: nat): (r: seq<nat>)
    requires |a| > 0 && start < |a|
    ensures forall i :: 0 <= i < |r| ==> r[i] < |a| && a[r[i]]
    decreases k
  {
    if k == 0 then []
    else (if a[start] then [start] else []) + Rotation(a, Wrap(start + 1, |a|), k - 1)
  }

  lemma {:induction false} RotationSplits(a: seq<bool>, start: nat, j: nat, k: nat)
    requires start < |a| && j + k <= |a|
    ensures Rotation(a, start, j + k) == Rotation(a, start, j) + Rotation(a, Wrap(start + j, |a|), k)
    decreases j
  {
    if j > 0 {
      RotationSplits(a, Wrap(start + 1, |a|), j - 1, k);
    }
  }

  /** One full turn, from start. */
  function Turn(a: seq<bool>, start: nat): seq<nat>
    requires |a| > 0 && start < |a|
  {
    Rotation(a, start, |a|)
  }

  /** What follows the next token in the turn. */
  function RestOfTurn(a: seq<bool>, start: nat, skipped: nat): seq<nat>
    requires start < |a| && skipped < |a|
  {
    Rotation(a, Wrap(Wrap(start + skipped, |a|) + 1, |a|), |a| - skipped - 1)
  }

  lemma TurnBegins(a: seq<bool>, start: nat, skipped: nat)
    requires start < |a| && skipped < |a|
    requires Rotation(a, start, skipped) == [] && a[Wrap(start + skipped, |a|)]
    ensures Turn(a, start) == [Wrap(start + skipped, |a|)] + RestOfTurn(a, start, skipped)
  {
    hide Rotation;
    RotationSplits(a, start, skipped, |a| - skipped);
    ActiveFirst(a, Wrap(start + skipped, |a|), |a| - skipped);
  }

  lemma NextTurnEnds(a: seq<bool>, start: nat, skipped: nat)
    requires start < |a| && skipped < |a|
    requires Rotation(a, start, skipped) == [] && a[Wrap(start + skipped, |a|)]
    ensures var used := Wrap(start + skipped, |a|);
            Turn(a, Wrap(used + 1, |a|)) == RestOfTurn(a, start, skipped) + [used]
  {
    hide Rotation;
    var n := |a|;
    var next := Wrap(Wrap(start + skipped, n) + 1, n);
    assert Wrap(next + (n - skipped - 1), n) == start;
    RotationSplits(a, next, n - skipped - 1, skipped + 1);
    RotationSplits(a, start, skipped, 1);
    ActiveFirst(a, Wrap(start + skipped, n), 1);
  }

  /** A token just used moves to the end of the turn. */
  lemma TurnRotates(a: seq<bool>, start: nat, skipped: nat)
    requires |a| > 0 && start < |a| && skipped < |a|
    requires Rotation(a, start, skipped) == [] && a[Wrap(start + skipped, |a|)]
    ensures var used := Wrap(start + skipped, |a|);
            && Turn(a, start) != [] && Turn(a, start)[0] == used
            && Turn(a, Wrap(used + 1, |a|)) == Turn(a, start)[1..] + [used]
  {
    TurnBegins(a, start, skipped);
    NextTurnEnds(a, start, skipped);
    hide Turn, RestOfTurn;
  }

  lemma ActiveFirst(a: seq<bool>, start: nat, k: nat)
    requires start < |a| && a[start] && 0 < k
    ensures Rotation(a, start, k) == [start] + Rotation(a, Wrap(start + 1, |a|), k - 1)
    ensures Rotation(a, start, 1) == [start]
  {
    assert Rotation(a, Wrap(start + 1, |a|), 0) == [];
  }

  /** i is among the k positions from start on, going round. */
  predicate Reached(n: nat, start: nat, k: nat, i: nat) {
    start <= i < start + k || i + n < start + k
  }

  lemma ReachedNext(n: nat, start: nat, k: nat, i: nat)
    requires start < n && i < n && 0 < k <= n
    ensures Reached(n, start, k, i) <==> i == start || Reached(n, Wrap(start + 1, n), k - 1, i)
    ensures !Reached(n, Wrap(start + 1, n), k - 1, start)
  {
  }

  /** How often i was handed out. */
  function Times(r: seq<nat>, i: nat): nat {
    if r == [] then 0 else (if r[0] == i then 1 else 0) + Times(r[1..], i)
  }

  lemma {:induction false} TimesAppend(r: seq<nat>, q: seq<nat>, i: nat)
    ensures Times(r + q, i) == Times(r, i) + Times(q, i)
  {
    if r == [] {
      assert r + q == q;
    } else {
      assert (r + q)[1..] == r[1..] + q;
      TimesAppend(r[1..], q, i);
    }
  }

  lemma {:induction false} TimesMember(r: seq<nat>, i: nat)
    ensures Times(r, i) > 0 <==> i in r
  {
    if r != [] {
      TimesMember(r[1..], i);
      assert r == [r[0]] + r[1..];
    }
  }

  /** In a turn every active position comes exactly once and no other comes at all. */
  lemma {:induction false} RotationOnce(a: seq<bool>, start: nat, k: nat, i: nat)
    requires |a| > 0 && start < |a| && k <= |a| && i < |a|
    ensures Times(Rotation(a, start, k), i) == if a[i] && Reached(|a|, start, k, i) then 1 else 0
    decreases k
  {
    if k > 0 {
      var next := Wrap(start + 1, |a|);
      RotationOnce(a, next, k - 1, i);
      ReachedNext(|a|, start, k, i);
      var rest := Rotation(a, next, k - 1);
      if a[start] {
        assert Rotation(a, start, k) == [start] + rest && ([start] + rest)[1..] == rest;
      } else {
        assert Rotation(a, start, k) == rest;
      }
    }
  }

  // ---- The pool ----

  class Pool {
    const tokens: seq<string>
    const exhaustionWindow: nat
    var counts: seq<nat>
    var exhaustedUntil: seq<Option<int>>
    var current: nat

    ghost predicate Valid()
      reads this
    {
      && |counts| == |exhaustedUntil| == |tokens|
      && (if |tokens| == 0 then current == 0 else current < |tokens|)
    }

    constructor (tokens: seq<string>, exhaustionWindow: nat)
      ensures Valid() && this.tokens == tokens && this.exhaustionWindow == exhaustionWindow
      ensures current == 0 && counts == Zeros(|tokens|)
      ensures forall i :: 0 <= i < |tokens| ==> exhaustedUntil[i] == None
    {
      this.tokens, this.exhaustionWindow := tokens, exhaustionWindow;
      counts := Zeros(|tokens|);
      exhaustedUntil := seq(|tokens|, _ => None);
      current := 0;
    }

    /** The next active token; "" when there is none. */
    method Token(nows: seq<int>) returns (token: string, ghost used: Option<nat>)
      requires Valid() && |nows| == |tokens|
      modifies this`counts, this`current
      ensures Valid()
      ensures (used, current) == NextToken(ActiveWhenReached(exhaustedUntil, old(current), nows), old(current))
      ensures used.None? ==> token == "" && counts == old(counts)
      ensures used.Some? ==> used.value < |tokens| && token == tokens[used.value]
      ensures used.Some? ==> InRotation(exhaustedUntil[used.value], nows[Distance(old(current), used.value, |nows|)])
      ensures used.Some? ==> counts == old(counts)[used.value := old(counts)[used.value] + 1]
    {
      token, used := "", None;
      var n := |tokens|;
      if n == 0 {
        return;
      }
      ghost var a := ActiveWhenReached(exhaustedUntil, current, nows);
      ghost var start := current;
      assert Rotation(a, start, 0) == [];
      hide Rotation, Turn, NextToken, ActiveWhenReached, Distance;
      for tried := 0 to n
        invariant current == Wrap(start + tried, n)
        invariant Rotation(a, start, tried) == []
        invariant counts == old(counts)
      {
        var idx := current;
        FoundActive(exhaustedUntil, start, nows, tried);
        current := Following(idx, n);
        if !Exhausted(exhaustedUntil[idx], nows[tried]) {
          counts := counts[idx := counts[idx] + 1];
          Found(a, start, tried);
          used := Some(idx);
          return tokens[idx], used;
        }
        SkipOne(a, start, tried);
      }
    }

    /** The token leaves rotation until the window has passed. */
    method Exhaust(token: string, now: int)
      requires Valid()
      modifies this`exhaustedUntil
      ensures Valid()
      ensures token !in tokens ==> exhaustedUntil == old(exhaustedUntil)
      ensures token in tokens ==>
                exists i :: 0 <= i < |tokens| && tokens[i] == token && token !in tokens[..i]
                  && exhaustedUntil == old(exhaustedUntil)[i := Some(now + exhaustionWindow)]
    {
      for i := 0 to |tokens|
        invariant token !in tokens[..i]
        invariant exhaustedUntil == old(exhaustedUntil)
      {
        if tokens[i] == token {
          exhaustedUntil := exhaustedUntil[i := Some(now + exhaustionWindow)];
          return;
        }
      }
    }

    /**
     * A token taken out at t is given by no later call whose readings are all before
     * the end of its window, however many calls there are.
     */
    method ExhaustThenTokens(token: string, t: int, readings: seq<seq<int>>) returns (given: seq<string>)
      requires Valid() && token in tokens && token != ""
      requires forall i, j :: 0 <= i < j < |tokens| ==> tokens[i] != tokens[j]
      requires forall c :: 0 <= c < |readings| ==> |readings[c]| == |tokens|
      requires forall c, d :: 0 <= c < |readings| && 0 <= d < |readings[c]| ==> readings[c][d] < t + exhaustionWindow
      modifies this
      ensures Valid() && |given| == |readings| && token !in given
    {
      Exhaust(token, t);
      ghost var out :| 0 <= out < |tokens| && tokens[out] == token && exhaustedUntil[out] == Some(t + exhaustionWindow);
      given := [];
      for c := 0 to |readings|
        invariant Valid() && exhaustedUntil[out] == Some(t + exhaustionWindow)
        invariant |given| == c && token !in given
      {
        hide NextToken, ActiveWhenReached;
        var next, used := Token(readings[c]);
        assert used.Some? ==> used.value != out;
        given := given + [next];
      }
    }

    method ActiveCount(nows: seq<int>) returns (count: nat)
      requires Valid() && |nows| == |tokens|
      ensures count == CountActive(ActiveWhenReached(exhaustedUntil, 0, nows))
    {
      count := 0;
      ghost var a := ActiveWhenReached(exhaustedUntil, 0, nows);
      for i := 0 to |tokens|
        invariant count == CountActive(a[..i])
      {
        assert a[..i + 1][..i] == a[..i];
        assert Distance(0, i, |nows|) == i;
        if !Exhausted(exhaustedUntil[i], nows[i]) {
          count := count + 1;
        }
      }
      assert a[..|tokens|] == a;
    }

    /**
     * Any number of calls while the same tokens stay in rotation: they walk the turn,
     * each is counted, and active tokens gain counts that differ by at most one.
     */
    method Tokens(a: seq<bool>, readings: seq<seq<int>>) returns (given: seq<string>, ghost log: seq<nat>)
      requires Valid() && Steady(exhaustedUntil, a, readings) && Reachable(a, current)
      modifies this`counts, this`current
      ensures Valid()
      ensures log == Calls(a, old(current), |readings|)
      ensures |given| == |log| == |readings|
      ensures forall k :: 0 <= k < |log| ==> log[k] < |tokens| && given[k] == tokens[log[k]]
      ensures forall i :: 0 <= i < |tokens| ==> counts[i] == old(counts)[i] + Times(log, i)
      ensures |a| == |tokens| && forall i, j :: 0 <= i < |tokens| && 0 <= j < |tokens| && a[i] && a[j] ==>
                counts[i] + old(counts)[j] <= counts[j] + old(counts)[i] + 1
    {
      given, log := [], [];
      ghost var start := current;
      NoCalls(a, start);
      hide Calls, AfterCalls, Head, NextStart, Reachable, Steady, ActiveWhenReached, Times, Distance;
      for c := 0 to |readings|
        invariant Valid() && Reachable(a, current)
        invariant log == Calls(a, start, c) && current == AfterCalls(a, start, c)
        invariant |given| == |log| == c
        invariant forall k :: 0 <= k < c ==> log[k] < |tokens| && given[k] == tokens[log[k]]
        invariant forall i :: 0 <= i < |tokens| ==> counts[i] == old(counts)[i] + Times(log, i)
      {
        ghost var next := NextInTurn(exhaustedUntil, a, readings, c, current);
        CallsAppend(a, start, c);
        var token, used := Token(readings[c]);
        CountsOneMore(log, next);
        log := log + [next];
        given := given + [token];
      }
      SharedFairly(a, start, |readings|);
    }
  }

  /** Every clock reading of every call finds exactly the tokens in a active. */
  ghost predicate Steady(exhaustedUntil: seq<Option<int>>, a: seq<bool>, readings: seq<seq<int>>) {
    && |a| == |exhaustedUntil|
    && (forall c :: 0 <= c < |readings| ==> |readings[c]| == |a|)
    && (forall c, d, i :: 0 <= c < |readings| && 0 <= d < |readings[c]| && 0 <= i < |a| ==>
          (a[i] <==> InRotation(exhaustedUntil[i], readings[c][d])))
  }

  lemma SteadyReached(exhaustedUntil: seq<Option<int>>, a: seq<bool>, readings: seq<seq<int>>, c: nat, start: nat)
    requires Steady(exhaustedUntil, a, readings) && c < |readings| && start < |a|
    ensures ActiveWhenReached(exhaustedUntil, start, readings[c]) == a
  {
    var r := ActiveWhenReached(exhaustedUntil, start, readings[c]);
    forall i | 0 <= i < |a| ensures r[i] == a[i] {
      var d := Distance(start, i, |a|);
      assert a[i] <==> InRotation(exhaustedUntil[i], readings[c][d]);
    }
  }

  lemma SharedFairly(a: seq<bool>, current: nat, m: nat)
    requires Reachable(a, current)
    ensures forall i, j :: 0 <= i < |a| && 0 <= j < |a| && a[i] && a[j] ==>
              Times(Calls(a, current, m), i) <= Times(Calls(a, current, m), j) + 1
  {
    forall i, j | 0 <= i < |a| && 0 <= j < |a| && a[i] && a[j]
      ensures Times(Calls(a, current, m), i) <= Times(Calls(a, current, m), j) + 1
    {
      FairShare(a, current, m, i, j);
    }
  }

  /** The next call, whenever it comes, returns the head of the turn. */
  lemma NextInTurn(exhaustedUntil: seq<Option<int>>, a: seq<bool>, readings: seq<seq<int>>, c: nat, current: nat)
    returns (next: nat)
    requires Steady(exhaustedUntil, a, readings) && c < |readings| && Reachable(a, current)
    ensures |readings[c]| == |a| && next < |a| && next == Head(a, current) && Reachable(a, NextStart(a, current))
    ensures NextToken(ActiveWhenReached(exhaustedUntil, current, readings[c]), current) == (Some(next), NextStart(a, current))
  {
    SteadyReached(exhaustedUntil, a, readings, c, current);
    next := Head(a, current);
  }

  lemma NoCalls(a: seq<bool>, current: nat)
    requires Reachable(a, current)
    ensures Calls(a, current, 0) == [] && AfterCalls(a, current, 0) == current && forall i :: Times([], i) == 0
  {
  }

  lemma CountsOneMore(log: seq<nat>, next: nat)
    ensures forall i: nat :: Times(log + [next], i) == Times(log, i) + (if i == next then 1 else 0)
  {
    forall i: nat ensures Times(log + [next], i) == Times(log, i) + (if i == next then 1 else 0) {
      TimesAppend(log, [next], i);
    }
  }

  predicate Reachable(a: seq<bool>, current: nat) {
    |a| > 0 && current < |a| && Turn(a, current) != []
  }

  /** From the end of its window on a token is in the turn again, once. */
  lemma BackAfterWindow(exhaustedUntil: seq<Option<int>>, start: nat, nows: seq<int>, i: nat, until: int)
    requires |nows| == |exhaustedUntil| && start < |nows| && i < |nows| && exhaustedUntil[i] == Some(until)
    requires forall d :: 0 <= d < |nows| ==> nows[d] >= until
    ensures Times(Turn(ActiveWhenReached(exhaustedUntil, start, nows), start), i) == 1
  {
    var a := ActiveWhenReached(exhaustedUntil, start, nows);
    assert a[i];
    RotationOnce(a, start, |a|, i);
  }

  function Zeros(n: nat): (z: seq<nat>)
    ensures |z| == n && forall i :: 0 <= i < n ==> z[i] == 0
  {
    seq(n, _ => 0)
  }

  function CountActive(a: seq<bool>): nat {
    if a == [] then 0 else CountActive(a[..|a| - 1]) + (if a[|a| - 1] then 1 else 0)
  }

  /** What one call answers and where it leaves the rotation. */
  function NextToken(a: seq<bool>, current: nat): (Option<nat>, nat)
    requires if |a| == 0 then current == 0 else current < |a|
  {
    if |a| == 0 || Turn(a, current) == [] then (None, current)
    else (Some(Turn(a, current)[0]), Wrap(Turn(a, current)[0] + 1, |a|))
  }

  lemma SkipOne(a: seq<bool>, start: nat, tried: nat)
    requires start < |a| && tried < |a| && Rotation(a, start, tried) == [] && !a[Wrap(start + tried, |a|)]
    ensures Rotation(a, start, tried + 1) == []
  {
    RotationSplits(a, start, tried, 1);
  }

  lemma Found(a: seq<bool>, start: nat, tried: nat)
    requires start < |a| && tried < |a| && Rotation(a, start, tried) == [] && a[Wrap(start + tried, |a|)]
    ensures var used := Wrap(start + tried, |a|); NextToken(a, start) == (Some(used), Wrap(used + 1, |a|))
  {
    TurnRotates(a, start, tried);
  }

  // ---- Fairness over consecutive calls ----

  /** The position that the next call hands out, and where it leaves the rotation. */
  function Head(a: seq<bool>, current: nat): (used: nat)
    requires Reachable(a, current)
    ensures used < |a|
  {
    Turn(a, current)[0]
  }

  function NextStart(a: seq<bool>, current: nat): (next: nat)
    requires Reachable(a, current)
    ensures Reachable(a, next)
  {
    NextTurn(a, current);
    Wrap(Head(a, current) + 1, |a|)
  }

  /** The positions handed out by m calls while the active set stays as it is. */
  function Calls(a: seq<bool>, current: nat, m: nat): (r: seq<nat>)
    requires Reachable(a, current)
    decreases m
  {
    if m == 0 then [] else [Head(a, current)] + Calls(a, NextStart(a, current), m - 1)
  }

  /** Where m calls leave the rotation. */
  function AfterCalls(a: seq<bool>, current: nat, m: nat): (next: nat)
    requires Reachable(a, current)
    ensures Reachable(a, next)
    decreases m
  {
    if m == 0 then current else AfterCalls(a, NextStart(a, current), m - 1)
  }

  lemma StartsReachable(a: seq<bool>, current: nat, m: nat)
    requires Reachable(a, current)
    ensures Reachable(a, NextStart(a, current)) && Reachable(a, AfterCalls(a, current, m))
  {
  }

  lemma {:induction false} CallsAppend(a: seq<bool>, current: nat, m: nat)
    requires Reachable(a, current)
    ensures Reachable(a, AfterCalls(a, current, m))
    ensures Calls(a, current, m + 1) == Calls(a, current, m) + [Head(a, AfterCalls(a, current, m))]
    ensures AfterCalls(a, current, m + 1) == NextStart(a, AfterCalls(a, current, m))
    decreases m
  {
    StartsReachable(a, current, m);
    hide Reachable, Head, NextStart;
    if m > 0 {
      CallsAppend(a, NextStart(a, current), m - 1);
    }
  }

  lemma {:induction false} FirstActive(a: seq<bool>, start: nat, k: nat) returns (skipped: nat)
    requires |a| > 0 && start < |a| && k <= |a| && Rotation(a, start, k) != []
    ensures skipped < k && Rotation(a, start, skipped) == []
    ensures a[Wrap(start + skipped, |a|)] && Rotation(a, start, k)[0] == Wrap(start + skipped, |a|)
    decreases k
  {
    if a[start] {
      skipped := 0;
    } else {
      var s := FirstActive(a, Wrap(start + 1, |a|), k - 1);
      skipped := s + 1;
    }
  }

  lemma NextTurn(a: seq<bool>, current: nat)
    requires |a| > 0 && current < |a| && Turn(a, current) != []
    ensures var t := Turn(a, current); Turn(a, Wrap(t[0] + 1, |a|)) == t[1..] + [t[0]]
  {
    var skipped := FirstActive(a, current, |a|);
    TurnRotates(a, current, skipped);
  }

  /** The first m elements of t repeated without end. */
  function Repeated(t: seq<nat>, m: nat): seq<nat>
    requires t != []
    decreases m
  {
    if m <= |t| then t[..m] else t + Repeated(t, m - |t|)
  }

  lemma {:induction false} RepeatedRotates(t: seq<nat>, m: nat)
    requires t != [] && m > 0
    ensures Repeated(t, m) == [t[0]] + Repeated(t[1..] + [t[0]], m - 1)
    decreases m
  {
    var rot := t[1..] + [t[0]];
    if m > |t| {
      RepeatedRotates(t, m - |t|);
      assert t + [t[0]] == [t[0]] + rot;
      if m - 1 > |t| {
        assert Repeated(rot, m - 1) == rot + Repeated(rot, m - 1 - |t|);
      } else {
        assert Repeated(rot, m - 1) == rot;
        assert Repeated(t, m) == t + t[..1];
      }
    } else {
      assert rot[..m - 1] == t[1..m];
    }
  }

  /** m calls walk through the turn again and again. */
  lemma {:induction false} CallsRepeatTurn(a: seq<bool>, current: nat, m: nat)
    requires Reachable(a, current)
    ensures Calls(a, current, m) == Repeated(Turn(a, current), m)
    decreases m
  {
    if m > 0 {
      var t := Turn(a, current);
      NextTurn(a, current);
      CallsRepeatTurn(a, Wrap(t[0] + 1, |a|), m - 1);
      RepeatedRotates(t, m);
    }
  }

  ghost predicate AnyActive(a: seq<bool>) {
    exists i :: 0 <= i < |a| && a[i]
  }

  /** No token is returned exactly when every token is exhausted. */
  lemma NoTokenIffAllExhausted(a: seq<bool>, current: nat)
    requires if |a| == 0 then current == 0 else current < |a|
    ensures NextToken(a, current).0.None? <==> !AnyActive(a)
    ensures NextToken(a, current).0.None? ==> NextToken(a, current).1 == current
  {
    if |a| > 0 {
      forall i | 0 <= i < |a|
        ensures a[i] ==> i in Turn(a, current)
      {
        RotationOnce(a, current, |a|, i);
        TimesMember(Turn(a, current), i);
      }
      if Turn(a, current) != [] {
        assert a[Turn(a, current)[0]];
      }
    }
  }

  /** As many calls as there are active tokens return each of them once, from any starting point. */
  lemma EachOnceInATurn(a: seq<bool>, current: nat, i: nat)
    requires |a| > 0 && current < |a| && i < |a| && Turn(a, current) != []
    ensures |Turn(a, current)| == CountActive(a)
    ensures Times(Calls(a, current, CountActive(a)), i) == if a[i] then 1 else 0
  {
    TurnLength(a, current);
    CallsRepeatTurn(a, current, |Turn(a, current)|);
    RotationOnce(a, current, |a|, i);
    assert Repeated(Turn(a, current), |Turn(a, current)|) == Turn(a, current);
  }

  lemma {:induction false} RepeatedCount(t: seq<nat>, m: nat, i: nat, j: nat)
    requires t != [] && Times(t, i) == 1 && Times(t, j) == 1
    ensures Times(Repeated(t, m), i) <= Times(Repeated(t, m), j) + 1
    decreases m
  {
    if m > |t| {
      RepeatedCount(t, m - |t|, i, j);
      TimesAppend(t, Repeated(t, m - |t|), i);
      TimesAppend(t, Repeated(t, m - |t|), j);
    } else {
      assert t == t[..m] + t[m..];
      TimesAppend(t[..m], t[m..], i);
      TimesAppend(t[..m], t[m..], j);
    }
  }

  lemma {:induction false} RepeatedNone(t: seq<nat>, m: nat, i: nat)
    requires t != [] && Times(t, i) == 0
    ensures Times(Repeated(t, m), i) == 0
    decreases m
  {
    if m > |t| {
      RepeatedNone(t, m - |t|, i);
      TimesAppend(t, Repeated(t, m - |t|), i);
    } else {
      assert t == t[..m] + t[m..];
      TimesAppend(t[..m], t[m..], i);
    }
  }

  /** Over any stretch of calls active tokens are used equally often, give or take one; exhausted ones never. */
  lemma FairShare(a: seq<bool>, current: nat, m: nat, i: nat, j: nat)
    requires |a| > 0 && current < |a| && i < |a| && j < |a| && a[i] && a[j]
    ensures Turn(a, current) != []
    ensures Times(Calls(a, current, m), i) <= Times(Calls(a, current, m), j) + 1
    ensures Times(Calls(a, current, m), j) <= Times(Calls(a, current, m), i) + 1
    ensures forall k :: 0 <= k < |a| && !a[k] ==> Times(Calls(a, current, m), k) == 0
  {
    var t := Turn(a, current);
    RotationOnce(a, current, |a|, i);
    RotationOnce(a, current, |a|, j);
    assert t != [];
    CallsRepeatTurn(a, current, m);
    RepeatedCount(t, m, i, j);
    RepeatedCount(t, m, j, i);
    forall k | 0 <= k < |a| && !a[k]
      ensures Times(Calls(a, current, m), k) == 0
    {
      RotationOnce(a, current, |a|, k);
      RepeatedNone(t, m, k);
    }
  }

  // ---- The length of a turn ----

  lemma {:induction false} CountSplits(a: seq<bool>, b: seq<bool>)
    ensures CountActive(a + b) == CountActive(a) + CountActive(b)
  {
    if b == [] {
      assert a + b == a;
    } else {
      assert (a + b)[..|a + b| - 1] == a + b[..|b| - 1];
      CountSplits(a, b[..|b| - 1]);
    }
  }

  lemma {:induction false} StraightLength(a: seq<bool>, start: nat, k: nat)
    requires start < |a| && start + k <= |a|
    ensures |Rotation(a, start, k)| == CountActive(a[start..start + k])
    decreases k
  {
    if k > 0 {
      assert a[start..start + k] == [a[start]] + a[start + 1..start + k];
      CountSplits([a[start]], a[start + 1..start + k]);
      assert [a[start]][..0] == [];
      if k > 1 {
        StraightLength(a, start + 1, k - 1);
      }
    }
  }

  lemma TurnIsTwoStretches(a: seq<bool>, start: nat)
    requires start < |a|
    ensures |Turn(a, start)| == |Rotation(a, start, |a| - start)| + |Rotation(a, 0, start)|
  {
    RotationSplits(a, start, |a| - start, start);
  }

  lemma TurnLength(a: seq<bool>, start: nat)
    requires start < |a|
    ensures |Turn(a, start)| == CountActive(a)
  {
    hide Rotation;
    hide CountActive;
    var n := |a|;
    var left, right := a[..start], a[start..];
    assert a == left + right;
    CountSplits(left, right);
    TurnIsTwoStretches(a, start);
    StraightLength(a, start, n - start);
    assert a[start..start + (n - start)] == right;
    StraightLength(a, 0, start);
    assert a[0..0 + start] == left;
  }
}
