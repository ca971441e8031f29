// Greedy packing of weighted jobs onto machines, and Graham's bound for it.
module Packing {

  /** The weight that assignment a puts on machine t. */
  function Load(p: seq<nat>, a: seq<nat>, t: nat): nat
    requires |a| == |p|
  {
    if |p| == 0 then 0
    else
      var n := |p| - 1;
      Load(p[..n], a[..n], t) + (if a[n] == t then p[n] else 0)
  }

  function Loads(p: seq<nat>, a: seq<nat>, m: nat): (r: seq<nat>)
    requires |a| == |p|
    ensures |r| == m && forall t :: 0 <= t < m ==> r[t] == Load(p, a, t)
  {
    seq(m, t requires 0 <= t < m => Load(p, a, t))
  }

  /** The least loaded machine; the lowest index when several are. */
  function ArgMin(loads: seq<nat>): (r: nat)
    requires |loads| > 0
    ensures r < |loads|
    ensures forall t :: 0 <= t < |loads| ==> loads[r] <= loads[t]
    ensures forall t :: 0 <= t < r ==> loads[r] < loads[t]
  {
    if |loads| == 1 then 0
    else
      var n := |loads| - 1;
      var r := ArgMin(loads[..n]);
      assert forall t :: 0 <= t < n ==> loads[..n][t] == loads[t];
      if loads[n] < loads[r] then n else r
  }

  /** Each job in turn goes to the machine that is least loaded so far. */
  function Greedy(p: seq<nat>, m: nat): (a: seq<nat>)
    requires m >= 1
    ensures |a| == |p|
    ensures forall i :: 0 <= i < |a| ==> a[i] < m
  {
    if |p| == 0 then []
    else
      var n := |p| - 1;
      var a := Greedy(p[..n], m);
      a + [ArgMin(Loads(p[..n], a, m))]
  }

  lemma GreedySplit(p: seq<nat>, m: nat)
    requires m >= 1 && |p| > 0
    ensures var n := |p| - 1; var a := Greedy(p[..n], m);
            Greedy(p, m)[..n] == a && Greedy(p, m)[n] == ArgMin(Loads(p[..n], a, m))
  {
  }

  function Sum(p: seq<nat>): nat {
    if |p| == 0 then 0 else Sum(p[..|p| - 1]) + p[|p| - 1]
  }

  /** Sum of the loads of machines 0 .. m-1. */
  function TotalLoad(p: seq<nat>, a: seq<nat>, m: nat): nat
    requires |a| == |p|
  {
    if m == 0 then 0 else TotalLoad(p, a, m - 1) + Load(p, a, m - 1)
  }

  lemma {:induction false} TotalLoadDropsLast(p: seq<nat>, a: seq<nat>, m: nat)
    requires |a| == |p| > 0
    ensures var n := |p| - 1;
            TotalLoad(p, a, m) == TotalLoad(p[..n], a[..n], m) + (if a[n] < m then p[n] else 0)
  {
    if m > 0 {
      TotalLoadDropsLast(p, a, m - 1);
    }
  }

  /** No work is lost: the loads add up to the jobs. */
  lemma {:induction false} LoadsAddUp(p: seq<nat>, a: seq<nat>, m: nat)
    requires |a| == |p| && forall i :: 0 <= i < |a| ==> a[i] < m
    ensures TotalLoad(p, a, m) == Sum(p)
  {
    if |p| == 0 {
      EmptyTotal(m);
      assert p == [] && a == [];
    } else {
      var n := |p| - 1;
      LoadsAddUp(p[..n], a[..n], m);
      TotalLoadDropsLast(p, a, m);
    }
  }

  lemma {:induction false} EmptyTotal(m: nat)
    ensures TotalLoad([], [], m) == 0
  {
    if m > 0 {
      EmptyTotal(m - 1);
    }
  }

  lemma {:induction false} TotalAtLeast(p: seq<nat>, a: seq<nat>, m: nat, x: nat)
    requires |a| == |p| && forall t :: 0 <= t < m ==> Load(p, a, t) >= x
    ensures TotalLoad(p, a, m) >= m * x
  {
    if m > 0 {
      TotalAtLeast(p, a, m - 1, x);
      assert m * x == (m - 1) * x + x;
    }
  }

  lemma {:induction false} TotalAtMost(p: seq<nat>, a: seq<nat>, m: nat, x: nat)
    requires |a| == |p| && forall t :: 0 <= t < m ==> Load(p, a, t) <= x
    ensures TotalLoad(p, a, m) <= m * x
  {
    if m > 0 {
      TotalAtMost(p, a, m - 1, x);
      assert m * x == (m - 1) * x + x;
    }
  }

  ghost predicate Descending(p: seq<nat>) {
    forall i, j :: 0 <= i < j < |p| ==> p[i] >= p[j]
  }

  /** a is an assignment of p to m machines in which no load exceeds bound. */
  ghost predicate FitsIn(p: seq<nat>, a: seq<nat>, m: nat, bound: nat) {
    && |a| == |p|
    && (forall i :: 0 <= i < |a| ==> a[i] < m)
    && (forall t :: 0 <= t < m ==> Load(p, a, t) <= bound)
  }

  lemma FitsInPrefix(p: seq<nat>, a: seq<nat>, m: nat, bound: nat)
    requires |p| > 0 && FitsIn(p, a, m, bound)
    ensures FitsIn(p[..|p| - 1], a[..|p| - 1], m, bound)
    ensures p[|p| - 1] <= bound
  {
    var n := |p| - 1;
    forall t | 0 <= t < m
      ensures Load(p[..n], a[..n], t) <= bound
    {
      assert Load(p, a, t) <= bound;
    }
    assert Load(p, a, a[n]) <= bound;
  }

  // ---- Jobs longer than a third of the bound ----

  /**
   * Slots a job takes when a machine has two: a job that leaves no room for
   * another of length q under the bound takes both.
   */
  function Slots(p: seq<nat>, q: nat, bound: nat): (w: seq<nat>)
    requires q <= bound
    ensures |w| == |p|
    ensures forall i :: 0 <= i < |p| ==> w[i] == if p[i] > bound - q then 2 else 1
  {
    seq(|p|, i requires 0 <= i < |p| => if p[i] > bound - q then 2 else 1)
  }

  /** A machine with fewer than two slots taken still has room for q. */
  lemma {:induction false} FreeSlotFits(p: seq<nat>, a: seq<nat>, t: nat, q: nat, bound: nat)
    requires |a| == |p| && q <= bound
    ensures var s := Load(Slots(p, q, bound), a, t);
            (s == 0 ==> Load(p, a, t) == 0) && (s == 1 ==> Load(p, a, t) <= bound - q)
  {
    if |p| > 0 {
      var n := |p| - 1;
      FreeSlotFits(p[..n], a[..n], t, q, bound);
      assert Slots(p, q, bound)[..n] == Slots(p[..n], q, bound);
    }
  }

  /** A machine with more than two slots taken is over the bound. */
  lemma {:induction false} ThreeSlotsOverflow(p: seq<nat>, a: seq<nat>, t: nat, q: nat, bound: nat)
    requires |a| == |p| && q <= bound && 3 * q > bound
    requires forall i :: 0 <= i < |p| ==> p[i] >= q
    ensures var s := Load(Slots(p, q, bound), a, t);
            && (s == 1 ==> Load(p, a, t) >= q)
            && (s == 2 ==> Load(p, a, t) >= 2 * q || Load(p, a, t) > bound - q)
            && (s == 2 ==> Load(p, a, t) >= q)
            && (s >= 3 ==> Load(p, a, t) > bound)
  {
    if |p| > 0 {
      var n := |p| - 1;
      ThreeSlotsOverflow(p[..n], a[..n], t, q, bound);
      assert Slots(p, q, bound)[..n] == Slots(p[..n], q, bound);
    }
  }

  /**
   * When the last job is the shortest and longer than a third of a bound that
   * some assignment meets, the earlier jobs leave room for it under that bound
   * on some machine, whichever way they are assigned: two slots a machine
   * are enough for the assignment that fits, so they cannot all be taken.
   */
  lemma RoomForLongJob(p: seq<nat>, a: seq<nat>, m: nat, b: seq<nat>, bound: nat) returns (t: nat)
    requires |p| > 0 && Descending(p) && FitsIn(p, b, m, bound)
    requires |a| == |p| - 1 && forall i :: 0 <= i < |a| ==> a[i] < m
    requires 3 * p[|p| - 1] > bound
    ensures t < m && Load(p[..|p| - 1], a, t) + p[|p| - 1] <= bound
  {
    var n := |p| - 1;
    var q := p[n];
    FitsInPrefix(p, b, m, bound);
    var w := Slots(p, q, bound);
    assert w[..n] == Slots(p[..n], q, bound);
    if forall u :: 0 <= u < m ==> Load(p[..n], a, u) + q > bound {
      forall u | 0 <= u < m
        ensures Load(w[..n], a, u) >= 2
      {
        FreeSlotFits(p[..n], a, u, q, bound);
      }
      TotalAtLeast(w[..n], a, m, 2);
      LoadsAddUp(w[..n], a, m);
      forall u | 0 <= u < m
        ensures Load(w, b, u) <= 2
      {
        ThreeSlotsOverflow(p, b, u, q, bound);
      }
      TotalAtMost(w, b, m, 2);
      LoadsAddUp(w, b, m);
      assert false;
    }
    t :| 0 <= t < m && Load(p[..n], a, t) + q <= bound;
  }

  // ---- The bounds ----

  /** The least load is at most the average. */
  lemma LeastBelowAverage(p: seq<nat>, a: seq<nat>, m: nat, t: nat)
    requires |a| == |p| && t < m && forall i :: 0 <= i < |a| ==> a[i] < m
    requires forall u :: 0 <= u < m ==> Load(p, a, t) <= Load(p, a, u)
    ensures m * Load(p, a, t) <= Sum(p)
  {
    TotalAtLeast(p, a, m, Load(p, a, t));
    LoadsAddUp(p, a, m);
  }

  lemma ScaleShort(m: nat, low: nat, q: nat, total: nat, bound: nat)
    requires m >= 1 && m * low <= total && total + q <= m * bound && 3 * q <= bound
    ensures 3 * m * (low + q) <= (4 * m - 1) * bound
  {
    assert m * (low + q) == m * low + m * q;
    assert m * q == q + (m - 1) * q;
    assert (m - 1) * (3 * q) <= (m - 1) * bound;
    assert 3 * (m * (low + q)) <= 3 * (m * bound) + (m - 1) * bound;
  }

  lemma ScaleLong(m: nat, load: nat, bound: nat)
    requires m >= 1 && load <= bound
    ensures 3 * m * load <= (4 * m - 1) * bound
  {
    assert m * load <= m * bound;
    assert bound <= m * bound;
    assert (4 * m - 1) * bound == 4 * (m * bound) - bound;
  }

  /** The job that goes on last keeps its machine within Graham's factor. */
  lemma LastJobWithinBound(p: seq<nat>, m: nat, b: seq<nat>, bound: nat)
    requires m >= 1 && |p| > 0 && Descending(p) && FitsIn(p, b, m, bound)
    ensures var t := Greedy(p, m)[|p| - 1];
            3 * m * Load(p, Greedy(p, m), t) <= (4 * m - 1) * bound
  {
    var n := |p| - 1;
    var a := Greedy(p[..n], m);
    GreedySplit(p, m);
    LeastLoad(p[..n], a, m);
    var t := ArgMin(Loads(p[..n], a, m));
    JobOnLeastWithinBound(p, a, m, b, bound, t, Load(p, Greedy(p, m), t));
  }

  lemma JobOnLeastWithinBound(p: seq<nat>, a: seq<nat>, m: nat, b: seq<nat>, bound: nat, t: nat, load: nat)
    requires m >= 1 && |p| > 0 && Descending(p) && FitsIn(p, b, m, bound)
    requires |a| == |p| - 1 && t < m && forall i :: 0 <= i < |a| ==> a[i] < m
    requires var pre := p[..|p| - 1]; forall u :: 0 <= u < m ==> Load(pre, a, t) <= Load(pre, a, u)
    requires load == Load(p[..|p| - 1], a, t) + p[|p| - 1]
    ensures 3 * m * load <= (4 * m - 1) * bound
  {
    var n := |p| - 1;
    if 3 * p[n] <= bound {
      assert p[..n] + [p[n]] == p;
      ShortJobWithinBound(p[..n], p[n], a, m, b, bound, t);
    } else {
      var u := RoomForLongJob(p, a, m, b, bound);
      ScaleLong(m, load, bound);
    }
  }

  lemma LeastLoad(p: seq<nat>, a: seq<nat>, m: nat)
    requires m >= 1 && |a| == |p|
    ensures forall u :: 0 <= u < m ==> Load(p, a, ArgMin(Loads(p, a, m))) <= Load(p, a, u)
  {
    var loads := Loads(p, a, m);
    forall u | 0 <= u < m
      ensures Load(p, a, ArgMin(loads)) <= Load(p, a, u)
    {
      assert loads[ArgMin(loads)] <= loads[u];
    }
  }

  lemma ShortJobWithinBound(pre: seq<nat>, q: nat, a: seq<nat>, m: nat, b: seq<nat>, bound: nat, t: nat)
    requires m >= 1 && FitsIn(pre + [q], b, m, bound) && 3 * q <= bound
    requires |a| == |pre| && t < m && forall i :: 0 <= i < |a| ==> a[i] < m
    requires forall u :: 0 <= u < m ==> Load(pre, a, t) <= Load(pre, a, u)
    ensures 3 * m * (Load(pre, a, t) + q) <= (4 * m - 1) * bound
  {
    LeastBelowAverage(pre, a, m, t);
    LoadsAddUp(pre + [q], b, m);
    TotalAtMost(pre + [q], b, m, bound);
    assert (pre + [q])[..|pre|] == pre;
    ScaleShort(m, Load(pre, a, t), q, Sum(pre), bound);
  }

  /**
   * Graham's theorem for longest-first greedy packing: its heaviest load is at
   * most (4m-1)/3m times the heaviest load of any assignment whatever.
   */
  lemma {:induction false} GreedyNearOptimal(p: seq<nat>, m: nat, b: seq<nat>, bound: nat)
    requires m >= 1 && Descending(p) && FitsIn(p, b, m, bound)
    ensures forall t :: 0 <= t < m ==> 3 * m * Load(p, Greedy(p, m), t) <= (4 * m - 1) * bound
  {
    forall t | 0 <= t < m
      ensures 3 * m * Load(p, Greedy(p, m), t) <= (4 * m - 1) * bound
    {
      if |p| == 0 {
        assert Load(p, Greedy(p, m), t) == 0;
        ScaleLong(m, 0, bound);
      } else {
        var n := |p| - 1;
        GreedySplit(p, m);
        FitsInPrefix(p, b, m, bound);
        GreedyNearOptimal(p[..n], m, b[..n], bound);
        LastJobWithinBound(p, m, b, bound);
        assert t != Greedy(p, m)[n] ==> Load(p, Greedy(p, m), t) == Load(p[..n], Greedy(p[..n], m), t);
      }
    }
  }

  /** Any two loads differ by at most the largest job. */
  lemma {:induction false} GreedyBalanced(p: seq<nat>, m: nat, largest: nat)
    requires m >= 1 && forall i :: 0 <= i < |p| ==> p[i] <= largest
    ensures forall t, u :: 0 <= t < m && 0 <= u < m ==>
              Load(p, Greedy(p, m), t) <= Load(p, Greedy(p, m), u) + largest
  {
    if |p| > 0 {
      var n := |p| - 1;
      var a := Greedy(p[..n], m);
      GreedySplit(p, m);
      GreedyBalanced(p[..n], m, largest);
      forall t, u | 0 <= t < m && 0 <= u < m
        ensures Load(p, Greedy(p, m), t) <= Load(p, Greedy(p, m), u) + largest
      {
        assert Loads(p[..n], a, m)[t] == Load(p[..n], a, t);
        assert Loads(p[..n], a, m)[u] == Load(p[..n], a, u);
      }
    }
  }

  lemma LoadAdds(p: seq<nat>, x: nat, a: seq<nat>, u: nat, t: nat)
    requires |a| == |p|
    ensures Load(p + [x], a + [u], t) == Load(p, a, t) + (if u == t then x else 0)
  {
    assert (p + [x])[..|p|] == p && (a + [u])[..|p|] == a;
  }
}
