// Time series by week or month: the periods of a window, and filling the gaps
// between the rows the database returned.
module GapFill {
  import opened Calendar

  const AUTO_GRANULARITY_THRESHOLD := 180

  datatype Granularity = Week | Month

  function AutoGranularity(days: int): (g: Granularity)
    ensures g == Week <==> days <= 180
  {
    if days <= AUTO_GRANULARITY_THRESHOLD then Week else Month
  }

  /** Go's Weekday of day n: Sunday is 0. */
  function Weekday(n: nat): nat {
    (n + 1) % 7
  }

  /** The day sinceDate names: days before today, moved back to a Monday in short windows. */
  function SinceDay(today: nat, days: int): (n: nat)
    requires today - days >= 0
    ensures days <= 180 ==> n % 7 == 0 && n <= today - days < n + 7
    ensures days > 180 ==> n == today - days
  {
    var since := today - days;
    MondayBefore(since);
    if days <= AUTO_GRANULARITY_THRESHOLD then
      var offset := if Weekday(since) == 0 then 6 else Weekday(since) - 1;
      since - offset
    else since
  }

  lemma MondayBefore(n: nat)
    ensures n % 7 == if Weekday(n) == 0 then 6 else Weekday(n) - 1
  {
  }

  function SinceDate(today: nat, days: int): string
    requires today - days >= 0
  {
    DateText(CivilOf(SinceDay(today, days)))
  }

  /** The label the database gives to the events of day n: its Monday, or its month. */
  function Bucket(gran: Granularity, n: nat): string {
    match gran
    case Week => DateText(CivilOf(n - n % 7))
    case Month => MonthText(CivilOf(n).year, CivilOf(n).month)
  }

  // ---- Periods ----

  function Weeks(start: nat, now: nat): (r: seq<string>)
    decreases now - start
  {
    if start > now then [] else [DateText(CivilOf(start))] + Weeks(start + 7, now)
  }

  function NextMonth(d: Date): (r: Date)
    requires d.Valid() && d.day == 1
    ensures r.Valid() && r.day == 1 && r.MonthIndex() == d.MonthIndex() + 1
  {
    if d.month < 12 then Date(d.year, d.month + 1, 1) else Date(d.year + 1, 1, 1)
  }

  function Months(d: Date, nowMonth: Date): (r: seq<string>)
    requires d.Valid() && d.day == 1
    decreases nowMonth.MonthIndex() - d.MonthIndex()
  {
    if d.MonthIndex() > nowMonth.MonthIndex() then []
    else [MonthText(d.year, d.month)] + Months(NextMonth(d), nowMonth)
  }

  function FirstOf(n: nat): (d: Date)
    ensures d.Valid() && d.day == 1
  {
    Date(CivilOf(n).year, CivilOf(n).month, 1)
  }

  /** The periods of a window that starts on day since and ends on day now. */
  function Periods(gran: Granularity, since: nat, now: nat): seq<string> {
    match gran
    case Week => Weeks(since, now)
    case Month => Months(FirstOf(since), FirstOf(now))
  }

  /** clock is read twice: by sinceDate, then for the end of the window. */
  method GeneratePeriods(days: int, today: nat, now: nat) returns (periods: seq<string>)
    requires today - days >= 0 && CivilOf(SinceDay(today, days)).year < 10000
    ensures periods == Periods(AutoGranularity(days), SinceDay(today, days), now)
  {
    hide DateText, MonthText, ParseDate, DayNumber, CivilOf, SinceDay, AutoGranularity, MonthDays;
    var gran := AutoGranularity(days);
    var since := SinceDate(today, days);
    var parsed := ParseDate(since);
    DateRoundTrip(CivilOf(SinceDay(today, days)));
    CivilRoundTrip(SinceDay(today, days));
    var start := parsed.value;
    periods := [];
    if gran == Week {
      var d := DayNumber(start);
      while d <= now
        invariant periods + Weeks(d, now) == Weeks(SinceDay(today, days), now)
        decreases now - d
      {
        periods := periods + [DateText(CivilOf(d))];
        d := d + 7;
      }
      assert periods + [] == periods;
    } else {
      var d := Date(start.year, start.month, 1);
      var nowMonth := FirstOf(now);
      while d.MonthIndex() <= nowMonth.MonthIndex()
        invariant d.Valid() && d.day == 1
        invariant periods + Months(d, nowMonth) == Months(FirstOf(SinceDay(today, days)), nowMonth)
        decreases nowMonth.MonthIndex() - d.MonthIndex()
      {
        periods := periods + [MonthText(d.year, d.month)];
        d := NextMonth(d);
      }
      assert periods + [] == periods;
    }
  }

  function Occurs(s: seq<string>, x: string): nat {
    if s == [] then 0 else (if s[0] == x then 1 else 0) + Occurs(s[1..], x)
  }

  lemma OccursCons(x: string, s: seq<string>, y: string)
    ensures Occurs([x] + s, y) == (if x == y then 1 else 0) + Occurs(s, y)
  {
    assert ([x] + s)[1..] == s;
  }

  lemma OccursNone(y: string)
    ensures Occurs([], y) == 0
  {
  }

  lemma {:induction false} WeekOccurs(start: nat, now: nat, monday: nat)
    requires CivilOf(now).year < 10000 && monday <= now && (monday - start) % 7 == 0
    ensures Occurs(Weeks(start, now), DateText(CivilOf(monday))) == if start <= monday then 1 else 0
    decreases now - start
  {
    hide DateText, CivilOf, Occurs;
    if start <= now {
      MonthsAscend(start, now);
      MonthsAscend(monday, now);
      LabelsTellApart(start, monday);
      WeekOccurs(start + 7, now, monday);
      OccursCons(DateText(CivilOf(start)), Weeks(start + 7, now), DateText(CivilOf(monday)));
    } else {
      OccursNone(DateText(CivilOf(monday)));
    }
  }

  lemma {:induction false} MonthOccurs(d: Date, nowMonth: Date, year: nat, month: nat)
    requires d.Valid() && d.day == 1 && 1 <= month <= 12 && nowMonth.year < 10000 && 1 <= nowMonth.month <= 12
    requires year * 12 + month - 1 <= nowMonth.MonthIndex()
    ensures Occurs(Months(d, nowMonth), MonthText(year, month)) == if d.MonthIndex() <= year * 12 + month - 1 then 1 else 0
    decreases nowMonth.MonthIndex() - d.MonthIndex()
  {
    hide MonthText, Occurs;
    if d.MonthIndex() <= nowMonth.MonthIndex() {
      if MonthText(d.year, d.month) == MonthText(year, month) {
        MonthTextsTellApart(d.year, d.month, year, month);
      }
      MonthOccurs(NextMonth(d), nowMonth, year, month);
      OccursCons(MonthText(d.year, d.month), Months(NextMonth(d), nowMonth), MonthText(year, month));
    } else {
      OccursNone(MonthText(year, month));
    }
  }

  /** A date's label is among the periods at most once, and exactly once when its bucket is not before the window's first. */
  lemma DateOccurs(days: int, today: nat, now: nat, n: nat)
    requires today - days >= 0 && CivilOf(now).year < 10000 && n <= now
    ensures var gran, since := AutoGranularity(days), SinceDay(today, days);
            Occurs(Periods(gran, since, now), Bucket(gran, n)) == if BucketIndex(gran, since) <= BucketIndex(gran, n) then 1 else 0
  {
    hide DateText, MonthText, CivilOf, Occurs, Weeks, Months;
    var since := SinceDay(today, days);
    MonthsAscend(n, now);
    if AutoGranularity(days) == Week {
      MondayBefore(today - days);
      assert since % 7 == 0;
      WeekOccurs(since, now, n - n % 7);
    } else {
      MonthOccurs(FirstOf(since), FirstOf(now), CivilOf(n).year, CivilOf(n).month);
    }
  }

  /** Position of a bucket in time. */
  function BucketIndex(gran: Granularity, n: nat): int {
    match gran
    case Week => n - n % 7
    case Month => CivilOf(n).MonthIndex()
  }

  /** Every date of the days asked for, back to sinceDate, has its label among the periods exactly once. */
  lemma EveryDateOnce(days: int, today: nat, n: nat)
    requires today - days >= 0 && CivilOf(today).year < 10000
    requires SinceDay(today, days) <= n <= today || today - days <= n <= today
    ensures Occurs(Periods(AutoGranularity(days), SinceDay(today, days), today), Bucket(AutoGranularity(days), n)) == 1
  {
    hide Periods, Bucket, CivilOf, Occurs;
    MonthsAscend(SinceDay(today, days), n);
    MondayBefore(today - days);
    DateOccurs(days, today, today, n);
  }

  lemma {:induction false} WeekOfPeriod(start: nat, now: nat, i: nat) returns (n: nat)
    requires i < |Weeks(start, now)|
    ensures start <= n <= now && n == start + 7 * i && Weeks(start, now)[i] == DateText(CivilOf(n))
    decreases i
  {
    hide DateText, CivilOf;
    if i == 0 {
      n := start;
    } else {
      n := WeekOfPeriod(start + 7, now, i - 1);
    }
  }

  lemma {:induction false} MonthOfPeriod(d: Date, nowMonth: Date, i: nat) returns (e: Date)
    requires d.Valid() && d.day == 1 && i < |Months(d, nowMonth)|
    ensures e.Valid() && d.MonthIndex() + i == e.MonthIndex() <= nowMonth.MonthIndex()
    ensures Months(d, nowMonth)[i] == MonthText(e.year, e.month)
    decreases i
  {
    hide MonthText;
    if i == 0 {
      e := d;
    } else {
      e := MonthOfPeriod(NextMonth(d), nowMonth, i - 1);
    }
  }

  /** No period is idle: each is the bucket of some date of the window, one week or month after the one before. */
  lemma NoIdlePeriod(days: int, today: nat, now: nat, i: nat) returns (n: nat)
    requires today - days >= 0 && today <= now
    requires i < |Periods(AutoGranularity(days), SinceDay(today, days), now)|
    ensures var gran, since := AutoGranularity(days), SinceDay(today, days);
            && since <= n <= now && Periods(gran, since, now)[i] == Bucket(gran, n)
            && if gran == Week then n == since + 7 * i else CivilOf(n).MonthIndex() == CivilOf(since).MonthIndex() + i
  {
    hide DateText, MonthText, CivilOf, Weeks, Months;
    var since := SinceDay(today, days);
    if AutoGranularity(days) == Week {
      MondayBefore(today - days);
      n := WeekOfPeriod(since, now, i);
    } else {
      var e := MonthOfPeriod(FirstOf(since), FirstOf(now), i);
      n := MonthMet(since, now, e.MonthIndex());
      SameMonth(e, CivilOf(n));
    }
  }

  lemma SameMonth(d: Date, e: Date)
    requires d.Valid() && e.Valid() && d.MonthIndex() == e.MonthIndex()
    ensures d.year == e.year && d.month == e.month
  {
  }

  ghost predicate Distinct(s: seq<string>) {
    forall i, j :: 0 <= i < j < |s| ==> s[i] != s[j]
  }

  lemma {:induction false} OccursAt(s: seq<string>, i: nat)
    requires i < |s|
    ensures Occurs(s, s[i]) >= 1
    ensures Occurs(s, s[i]) == 1 ==> forall j :: 0 <= j < |s| && j != i ==> s[j] != s[i]
  {
    if i > 0 {
      OccursAt(s[1..], i - 1);
    } else {
      forall j | 0 < j < |s| && Occurs(s, s[0]) == 1 ensures s[j] != s[0] {
        OccursAt(s[1..], j - 1);
      }
    }
  }

  lemma {:induction false} OccursIn(s: seq<string>, x: string)
    ensures Occurs(s, x) > 0 <==> x in s
  {
    if s != [] {
      OccursIn(s[1..], x);
      assert s == [s[0]] + s[1..];
    }
  }

  lemma PeriodsDistinct(days: int, today: nat, now: nat)
    requires today - days >= 0 && today <= now && CivilOf(now).year < 10000
    ensures Distinct(Periods(AutoGranularity(days), SinceDay(today, days), now))
  {
    hide Periods, Bucket, CivilOf, Occurs, SinceDay;
    var gran := AutoGranularity(days);
    var periods := Periods(gran, SinceDay(today, days), now);
    forall i | 0 <= i < |periods| ensures Occurs(periods, periods[i]) == 1 {
      var n := NoIdlePeriod(days, today, now, i);
      DateOccurs(days, today, now, n);
      OccursAt(periods, i);
    }
    forall i, j | 0 <= i < j < |periods| ensures periods[i] != periods[j] {
      OccursAt(periods, i);
    }
  }

  // ---- Filling ----

  datatype GapFiller = GapFiller(periods: seq<string>, index: map<string, nat>)

  /** Where each label was last seen. */
  function IndexOf(labels: seq<string>): map<string, nat> {
    if labels == [] then map[]
    else IndexOf(labels[..|labels| - 1])[labels[|labels| - 1] := |labels| - 1]
  }

  function ValueAt(index: map<string, nat>, period: string, orig: seq<real>): real {
    if period in index && index[period] < |orig| then orig[index[period]] else 0.0
  }

  function Filled(gf: GapFiller, orig: seq<real>): (out: seq<real>)
    ensures |out| == |gf.periods|
    ensures forall i :: 0 <= i < |out| ==> out[i] == ValueAt(gf.index, gf.periods[i], orig)
  {
    seq(|gf.periods|, i requires 0 <= i < |gf.periods| => ValueAt(gf.index, gf.periods[i], orig))
  }

  method NewGapFiller(days: int, labels: seq<string>, today: nat, now: nat) returns (gf: GapFiller)
    requires today - days >= 0 && CivilOf(SinceDay(today, days)).year < 10000
    ensures gf == GapFiller(Periods(AutoGranularity(days), SinceDay(today, days), now), IndexOf(labels))
  {
    var periods := GeneratePeriods(days, today, now);
    var idx: map<string, nat> := map[];
    var i := 0;
    while i < |labels|
      invariant 0 <= i <= |labels| && idx == IndexOf(labels[..i])
    {
      assert labels[..i + 1][..i] == labels[..i];
      idx := idx[labels[i] := i];
      i := i + 1;
    }
    assert labels[..i] == labels;
    gf := GapFiller(periods, idx);
  }

  method GapFillSlice(gf: GapFiller, orig: seq<real>) returns (filled: seq<real>)
    ensures filled == Filled(gf, orig)
  {
    var out := new real[|gf.periods|](i => 0.0);
    var i := 0;
    while i < |gf.periods|
      invariant 0 <= i <= |gf.periods|
      invariant forall k :: 0 <= k < i ==> out[k] == ValueAt(gf.index, gf.periods[k], orig)
      invariant forall k :: i <= k < |gf.periods| ==> out[k] == 0.0
    {
      var p := gf.periods[i];
      if p in gf.index && gf.index[p] < |orig| {
        out[i] := orig[gf.index[p]];
      }
      i := i + 1;
    }
    filled := out[..];
  }

  function Sum(s: seq<real>): real {
    if s == [] then 0.0 else Sum(s[..|s| - 1]) + s[|s| - 1]
  }

  lemma {:induction false} SumZero(s: seq<real>)
    requires forall i :: 0 <= i < |s| ==> s[i] == 0.0
    ensures Sum(s) == 0.0
  {
    if s != [] {
      SumZero(s[..|s| - 1]);
    }
  }

  lemma {:induction false} SumUpdate(s: seq<real>, p: nat, v: real)
    requires p < |s|
    ensures Sum(s[p := v]) == Sum(s) - s[p] + v
  {
    var n := |s| - 1;
    if p < n {
      SumUpdate(s[..n], p, v);
      assert s[p := v][..n] == s[..n][p := v];
    } else {
      assert s[p := v][..n] == s[..n];
    }
  }

  lemma {:induction false} IndexMeaning(labels: seq<string>, x: string)
    ensures x in IndexOf(labels) <==> x in labels
    ensures x in labels ==> IndexOf(labels)[x] < |labels| && labels[IndexOf(labels)[x]] == x
    ensures x in labels ==> forall k :: IndexOf(labels)[x] < k < |labels| ==> labels[k] != x
  {
    if labels != [] {
      var n := |labels| - 1;
      IndexMeaning(labels[..n], x);
      assert labels == labels[..n] + [labels[n]];
    }
  }

  /** With distinct labels the series holds each label's own value, and zero in every other period. */
  lemma FilledKeepsValues(periods: seq<string>, labels: seq<string>, orig: seq<real>, i: nat, j: nat)
    requires Distinct(labels) && |orig| == |labels| && i < |periods| && j < |labels|
    ensures periods[i] == labels[j] ==> Filled(GapFiller(periods, IndexOf(labels)), orig)[i] == orig[j]
    ensures periods[i] !in labels ==> Filled(GapFiller(periods, IndexOf(labels)), orig)[i] == 0.0
  {
    IndexMeaning(labels, periods[i]);
  }

  lemma FilledStep(periods: seq<string>, labels: seq<string>, orig: seq<real>, p: nat, l: string, v: real)
    requires Distinct(periods) && |orig| == |labels| && p < |periods| && periods[p] == l && l !in labels
    ensures var before := Filled(GapFiller(periods, IndexOf(labels)), orig);
            before[p] == 0.0
            && Filled(GapFiller(periods, IndexOf(labels + [l])), orig + [v]) == before[p := v]
  {
    var before := Filled(GapFiller(periods, IndexOf(labels)), orig);
    var after := Filled(GapFiller(periods, IndexOf(labels + [l])), orig + [v]);
    assert (labels + [l])[..|labels|] == labels;
    IndexMeaning(labels, l);
    forall i | 0 <= i < |periods| ensures after[i] == before[p := v][i] {
      IndexMeaning(labels, periods[i]);
    }
  }

  lemma SumStep(periods: seq<string>, labels: seq<string>, orig: seq<real>, l: string, v: real)
    requires Distinct(periods) && |orig| == |labels| && l in periods && l !in labels
    ensures Sum(Filled(GapFiller(periods, IndexOf(labels + [l])), orig + [v]))
            == Sum(Filled(GapFiller(periods, IndexOf(labels)), orig)) + v
  {
    hide Filled, IndexOf;
    var p :| 0 <= p < |periods| && periods[p] == l;
    FilledStep(periods, labels, orig, p, l, v);
    SumUpdate(Filled(GapFiller(periods, IndexOf(labels)), orig), p, v);
  }

  lemma SumSnoc(s: seq<real>, v: real)
    ensures Sum(s + [v]) == Sum(s) + v
  {
    assert (s + [v])[..|s|] == s;
  }

  lemma NotBefore(labels: seq<string>, k: nat)
    requires Distinct(labels) && k < |labels|
    ensures labels[k] !in labels[..k] && Distinct(labels[..k])
  {
  }

  lemma NothingKept(periods: seq<string>)
    ensures Sum(Filled(GapFiller(periods, IndexOf([])), [])) == Sum([])
  {
    SumZero(Filled(GapFiller(periods, IndexOf([])), []));
  }

  lemma {:induction false} SumKeptTo(periods: seq<string>, labels: seq<string>, orig: seq<real>, k: nat)
    requires Distinct(periods) && Distinct(labels) && |orig| == |labels| && k <= |labels|
    requires forall i :: 0 <= i < |labels| ==> labels[i] in periods
    ensures Sum(Filled(GapFiller(periods, IndexOf(labels[..k])), orig[..k])) == Sum(orig[..k])
  {
    NothingKept(periods);
    hide Filled, IndexOf, Sum, Distinct;
    if k == 0 {
      assert labels[..k] == [] && orig[..k] == [];
    } else {
      SumKeptTo(periods, labels, orig, k - 1);
      NotBefore(labels, k - 1);
      SumStep(periods, labels[..k - 1], orig[..k - 1], labels[k - 1], orig[k - 1]);
      SumSnoc(orig[..k - 1], orig[k - 1]);
      assert labels[..k] == labels[..k - 1] + [labels[k - 1]];
      assert orig[..k] == orig[..k - 1] + [orig[k - 1]];
    }
  }

  lemma SumKept(periods: seq<string>, labels: seq<string>, orig: seq<real>)
    requires Distinct(periods) && Distinct(labels) && |orig| == |labels|
    requires forall l :: l in labels ==> l in periods
    ensures Sum(Filled(GapFiller(periods, IndexOf(labels)), orig)) == Sum(orig)
  {
    SumKeptTo(periods, labels, orig, |labels|);
    assert labels[..|labels|] == labels && orig[..|orig|] == orig;
  }

  ghost predicate KeepsEverySum(periods: seq<string>, labels: seq<string>) {
    forall orig :: |orig| == |labels| ==> Sum(Filled(GapFiller(periods, IndexOf(labels)), orig)) == Sum(orig)
  }

  /** A value at j alone: it is lost when its label is no period, or comes again later. */
  lemma OneValueLost(periods: seq<string>, labels: seq<string>, j: nat, k: nat)
    requires j < |labels|
    requires labels[j] !in periods || (j < k < |labels| && labels[j] == labels[k])
    ensures !KeepsEverySum(periods, labels)
  {
    var zeros := seq(|labels|, i => 0.0);
    var orig := zeros[j := 1.0];
    var out := Filled(GapFiller(periods, IndexOf(labels)), orig);
    forall i | 0 <= i < |out| ensures out[i] == 0.0 {
      IndexMeaning(labels, periods[i]);
      assert periods[i] in periods;
    }
    SumZero(out);
    SumZero(zeros);
    SumUpdate(zeros, j, 1.0);
    assert |orig| == |labels| && Sum(out) != Sum(orig);
  }

  /** Over distinct periods the sum survives for all values exactly when the labels are distinct periods. */
  lemma SumKeptIff(periods: seq<string>, labels: seq<string>)
    requires Distinct(periods)
    ensures KeepsEverySum(periods, labels) <==> Distinct(labels) && forall l :: l in labels ==> l in periods
  {
    if Distinct(labels) && forall l :: l in labels ==> l in periods {
      forall orig | |orig| == |labels| ensures Sum(Filled(GapFiller(periods, IndexOf(labels)), orig)) == Sum(orig) {
        SumKept(periods, labels, orig);
      }
    } else if j, k :| 0 <= j < k < |labels| && labels[j] == labels[k] {
      OneValueLost(periods, labels, j, k);
    } else {
      var l :| l in labels && l !in periods;
      var j :| 0 <= j < |labels| && labels[j] == l;
      OneValueLost(periods, labels, j, 0);
    }
  }

  // ---- A query and its filler, with their separate clock readings ----

  /** Every date the query could return has its label among the filler's periods. */
  ghost predicate CoversWindow(days: int, queried: nat, today: nat, now: nat)
    requires queried - days >= 0 && queried <= today
  {
    var gran := AutoGranularity(days);
    forall n :: SinceDay(queried, days) <= n <= now ==> Bucket(gran, n) in Periods(gran, SinceDay(today, days), now)
  }

  lemma SinceAscends(days: int, queried: nat, today: nat)
    requires queried - days >= 0 && queried <= today
    ensures SinceDay(queried, days) <= SinceDay(today, days)
  {
    MondayBefore(queried - days);
    MondayBefore(today - days);
  }

  lemma BucketsAscend(gran: Granularity, m: nat, n: nat)
    requires m <= n
    ensures BucketIndex(gran, m) <= BucketIndex(gran, n)
  {
    hide CivilOf;
    MonthsAscend(m, n);
  }

  /**
   * sinceDate is read once for the query and again for the filler. No row is
   * lost between them exactly when both readings fall in one bucket.
   */
  lemma CoversWindowIff(days: int, queried: nat, today: nat, now: nat)
    requires queried - days >= 0 && queried <= today <= now && CivilOf(now).year < 10000
    requires SinceDay(queried, days) <= now
    ensures CoversWindow(days, queried, today, now)
            <==> BucketIndex(AutoGranularity(days), SinceDay(queried, days))
                 == BucketIndex(AutoGranularity(days), SinceDay(today, days))
  {
    hide Periods, Bucket, CivilOf, Occurs, SinceDay, BucketIndex;
    var gran := AutoGranularity(days);
    var first, since := SinceDay(queried, days), SinceDay(today, days);
    var periods := Periods(gran, since, now);
    SinceAscends(days, queried, today);
    BucketsAscend(gran, first, since);
    forall n | first <= n <= now
      ensures Bucket(gran, n) in periods <==> BucketIndex(gran, since) <= BucketIndex(gran, n)
    {
      DateOccurs(days, today, now, n);
      OccursIn(periods, Bucket(gran, n));
    }
    if BucketIndex(gran, first) == BucketIndex(gran, since) {
      forall n | first <= n <= now ensures Bucket(gran, n) in periods {
        BucketsAscend(gran, first, n);
      }
    } else {
      assert Bucket(gran, first) !in periods;
    }
  }

  /** A 30-day query that reaches back to a Sunday's week, with its filler read after midnight, loses that week. */
  lemma MidnightLosesAWeek(queried: nat)
    requires queried >= 36 && (queried - 30) % 7 == 6 && CivilOf(queried + 1).year < 10000
    ensures !CoversWindow(30, queried, queried + 1, queried + 1)
  {
    hide CoversWindow, CivilOf;
    CoversWindowIff(30, queried, queried + 1, queried + 1);
  }

  datatype Row = Row(bucket: string, v1: real, v2: real)

  function Labels(rows: seq<Row>): (r: seq<string>)
    ensures |r| == |rows|
  {
    seq(|rows|, i requires 0 <= i < |rows| => rows[i].bucket)
  }

  function FirstValues(rows: seq<Row>): (r: seq<real>)
    ensures |r| == |rows|
  {
    seq(|rows|, i requires 0 <= i < |rows| => rows[i].v1)
  }

  function SecondValues(rows: seq<Row>): (r: seq<real>)
    ensures |r| == |rows|
  {
    seq(|rows|, i requires 0 <= i < |rows| => rows[i].v2)
  }

  /** The rows of a grouped query: one per bucket, dates[i] being a date of row i. */
  ghost predicate Grouped(rows: seq<Row>, gran: Granularity, dates: seq<nat>) {
    && Distinct(Labels(rows)) && |dates| == |rows|
    && forall i :: 0 <= i < |rows| ==> rows[i].bucket == Bucket(gran, dates[i])
  }

  /** What getDualSeries makes of the rows it scans. */
  method DualSeries(rows: seq<Row>, days: int, today: nat, now: nat) returns (periods: seq<string>, a: seq<real>, b: seq<real>)
    requires today - days >= 0 && CivilOf(SinceDay(today, days)).year < 10000
    ensures periods == Periods(AutoGranularity(days), SinceDay(today, days), now)
    ensures a == Filled(GapFiller(periods, IndexOf(Labels(rows))), FirstValues(rows))
    ensures b == Filled(GapFiller(periods, IndexOf(Labels(rows))), SecondValues(rows))
    ensures |a| == |b| == |periods|
    ensures (forall i, j :: 0 <= i < j < |rows| ==> rows[i].bucket != rows[j].bucket) ==>
              forall i, j :: 0 <= i < |periods| && 0 <= j < |rows| && periods[i] == rows[j].bucket ==>
                a[i] == rows[j].v1 && b[i] == rows[j].v2
    ensures forall i :: 0 <= i < |periods| && (forall j :: 0 <= j < |rows| ==> rows[j].bucket != periods[i]) ==>
              a[i] == 0.0 && b[i] == 0.0
  {
    hide Periods, Filled, IndexOf, CivilOf, SinceDay;
    var ms: seq<string>, v1s: seq<real>, v2s: seq<real> := [], [], [];
    var i := 0;
    while i < |rows|
      invariant 0 <= i <= |rows|
      invariant ms == Labels(rows)[..i] && v1s == FirstValues(rows)[..i] && v2s == SecondValues(rows)[..i]
    {
      ms := ms + [rows[i].bucket];
      v1s := v1s + [rows[i].v1];
      v2s := v2s + [rows[i].v2];
      i := i + 1;
    }
    assert ms == Labels(rows) && v1s == FirstValues(rows) && v2s == SecondValues(rows);
    var gf := NewGapFiller(days, ms, today, now);
    a := GapFillSlice(gf, v1s);
    b := GapFillSlice(gf, v2s);
    periods := gf.periods;
    EachBucketsValues(periods, rows);
  }

  lemma EachBucketsValues(periods: seq<string>, rows: seq<Row>)
    ensures var gf := GapFiller(periods, IndexOf(Labels(rows)));
            var a, b := Filled(gf, FirstValues(rows)), Filled(gf, SecondValues(rows));
            && ((forall i, j :: 0 <= i < j < |rows| ==> rows[i].bucket != rows[j].bucket) ==>
                  forall i, j :: 0 <= i < |periods| && 0 <= j < |rows| && periods[i] == rows[j].bucket ==>
                    a[i] == rows[j].v1 && b[i] == rows[j].v2)
            && (forall i :: 0 <= i < |periods| && (forall j :: 0 <= j < |rows| ==> rows[j].bucket != periods[i]) ==>
                  a[i] == 0.0 && b[i] == 0.0)
  {
    var labels := Labels(rows);
    var gf := GapFiller(periods, IndexOf(labels));
    var a, b := Filled(gf, FirstValues(rows)), Filled(gf, SecondValues(rows));
    forall i, j | 0 <= i < |periods| && 0 <= j < |rows| && periods[i] == rows[j].bucket && Distinct(labels)
      ensures a[i] == rows[j].v1 && b[i] == rows[j].v2
    {
      assert labels[j] == rows[j].bucket;
      FilledKeepsValues(periods, labels, FirstValues(rows), i, j);
      FilledKeepsValues(periods, labels, SecondValues(rows), i, j);
    }
    forall i | 0 <= i < |periods| && (forall j :: 0 <= j < |rows| ==> rows[j].bucket != periods[i])
      ensures a[i] == 0.0 && b[i] == 0.0
    {
      IndexMeaning(labels, periods[i]);
    }
  }

  /** Every row's bucket is neither before the filler's first nor after that of now. */
  ghost predicate RowsWithin(days: int, today: nat, now: nat, dates: seq<nat>)
    requires today - days >= 0
  {
    var gran := AutoGranularity(days);
    forall i :: 0 <= i < |dates| ==>
      BucketIndex(gran, SinceDay(today, days)) <= BucketIndex(gran, dates[i]) <= BucketIndex(gran, now)
  }

  /** A label is among the periods exactly when its bucket is within the window. */
  lemma LabelWithin(days: int, today: nat, now: nat, n: nat)
    requires today - days >= 0 && today <= now && CivilOf(now).year < 10000 && CivilOf(n).year < 10000
    ensures var gran, since := AutoGranularity(days), SinceDay(today, days);
            Bucket(gran, n) in Periods(gran, since, now)
            <==> BucketIndex(gran, since) <= BucketIndex(gran, n) <= BucketIndex(gran, now)
  {
    hide Periods, Bucket, CivilOf, Occurs, SinceDay, BucketIndex;
    var gran, since := AutoGranularity(days), SinceDay(today, days);
    var periods := Periods(gran, since, now);
    if n <= now {
      DateOccurs(days, today, now, n);
      OccursIn(periods, Bucket(gran, n));
      BucketsAscend(gran, n, now);
    } else if Bucket(gran, n) in periods {
      var i :| 0 <= i < |periods| && periods[i] == Bucket(gran, n);
      var m := NoIdlePeriod(days, today, now, i);
      BucketsTellApart(gran, m, n, now);
      BucketsAscend(gran, m, now);
      BucketsAscend(gran, since, m);
    } else if BucketIndex(gran, n) <= BucketIndex(gran, now) {
      BucketsAscend(gran, now, n);
      SameBucket(gran, n, now);
      DateOccurs(days, today, now, now);
      OccursIn(periods, Bucket(gran, now));
    }
  }

  lemma BucketsTellApart(gran: Granularity, m: nat, n: nat, now: nat)
    requires Bucket(gran, m) == Bucket(gran, n) && m <= now && CivilOf(now).year < 10000 && CivilOf(n).year < 10000
    ensures BucketIndex(gran, m) == BucketIndex(gran, n)
  {
    hide DateText, MonthText, CivilOf;
    MonthsAscend(m, now);
    if gran == Week {
      WeeksTellApart(m - m % 7, n - n % 7, m, n);
    } else {
      assert 1 <= CivilOf(m).month <= 12 && 1 <= CivilOf(n).month <= 12 by { ValidMonths(m, n); }
      MonthTextsTellApart(CivilOf(m).year, CivilOf(m).month, CivilOf(n).year, CivilOf(n).month);
    }
  }

  lemma ValidMonths(m: nat, n: nat)
    ensures 1 <= CivilOf(m).month <= 12 && 1 <= CivilOf(n).month <= 12
  {
  }

  lemma WeeksTellApart(a: nat, b: nat, m: nat, n: nat)
    requires a <= m && b <= n && CivilOf(m).year < 10000 && CivilOf(n).year < 10000
    requires DateText(CivilOf(a)) == DateText(CivilOf(b))
    ensures a == b
  {
    MonthsAscend(a, m);
    MonthsAscend(b, n);
    LabelsTellApart(a, b);
  }

  lemma SameBucket(gran: Granularity, m: nat, n: nat)
    requires BucketIndex(gran, m) == BucketIndex(gran, n)
    ensures Bucket(gran, m) == Bucket(gran, n)
  {
    if gran == Month {
      SameMonth(CivilOf(m), CivilOf(n));
    }
  }

  /**
   * Gap filling keeps the sum of either series, whatever its values, exactly when
   * every row's bucket lies from the filler's first to that of now: no week or
   * month was lost at the start, and no row is dated in a later one.
   */
  lemma DualSeriesConservesIff(rows: seq<Row>, days: int, today: nat, now: nat, dates: seq<nat>)
    requires today - days >= 0 && today <= now && CivilOf(now).year < 10000
    requires Grouped(rows, AutoGranularity(days), dates)
    requires forall i :: 0 <= i < |dates| ==> CivilOf(dates[i]).year < 10000
    ensures KeepsEverySum(Periods(AutoGranularity(days), SinceDay(today, days), now), Labels(rows))
            <==> RowsWithin(days, today, now, dates)
  {
    hide Periods, Bucket, CivilOf, SinceDay, BucketIndex, Sum, Filled, IndexOf, KeepsEverySum;
    var gran, labels := AutoGranularity(days), Labels(rows);
    var periods := Periods(gran, SinceDay(today, days), now);
    PeriodsDistinct(days, today, now);
    SumKeptIff(periods, labels);
    forall i | 0 <= i < |rows|
      ensures labels[i] in periods <==>
              BucketIndex(gran, SinceDay(today, days)) <= BucketIndex(gran, dates[i]) <= BucketIndex(gran, now)
    {
      LabelWithin(days, today, now, dates[i]);
    }
    if RowsWithin(days, today, now, dates) {
      forall l | l in labels ensures l in periods {
        var i :| 0 <= i < |labels| && labels[i] == l;
      }
    } else {
      var i :| 0 <= i < |dates|
        && !(BucketIndex(gran, SinceDay(today, days)) <= BucketIndex(gran, dates[i]) <= BucketIndex(gran, now));
      assert labels[i] in labels;
    }
  }

  /** So unless sinceDate crosses a bucket between query and filler, a query up to now loses nothing of either series. */
  lemma DualSeriesConserves(rows: seq<Row>, days: int, queried: nat, today: nat, now: nat, dates: seq<nat>)
    requires queried - days >= 0 && queried <= today <= now && CivilOf(now).year < 10000
    requires BucketIndex(AutoGranularity(days), SinceDay(queried, days))
             == BucketIndex(AutoGranularity(days), SinceDay(today, days))
    requires Grouped(rows, AutoGranularity(days), dates)
    requires forall i :: 0 <= i < |dates| ==> SinceDay(queried, days) <= dates[i] <= now
    ensures KeepsEverySum(Periods(AutoGranularity(days), SinceDay(today, days), now), Labels(rows))
  {
    hide Periods, Bucket, CivilOf, SinceDay, BucketIndex, KeepsEverySum;
    forall i | 0 <= i < |dates|
      ensures BucketIndex(AutoGranularity(days), SinceDay(queried, days)) <= BucketIndex(AutoGranularity(days), dates[i])
      ensures BucketIndex(AutoGranularity(days), dates[i]) <= BucketIndex(AutoGranularity(days), now)
      ensures CivilOf(dates[i]).year < 10000
    {
      BucketsAscend(AutoGranularity(days), SinceDay(queried, days), dates[i]);
      BucketsAscend(AutoGranularity(days), dates[i], now);
      MonthsAscend(dates[i], now);
    }
    DualSeriesConservesIff(rows, days, today, now, dates);
  }
}
