// Star and fork totals per day, walked back from today's totals.
module DailyTotals {
  import opened Calendar

  datatype DayTotal = DayTotal(date: string, stars: int, forks: int)

  type Counts = map<string, nat>

  function Count(m: Counts, date: string): nat {
    if date in m then m[date] else 0
  }

  function DateOn(n: nat): string {
    DateText(CivilOf(n))
  }

  /** count texts, of the days from first on. */
  function TextsFrom(first: nat, count: nat, text: nat -> string): (r: seq<string>)
    ensures |r| == count
    ensures forall i :: 0 <= i < count ==> r[i] == text(first + i)
  {
    if count == 0 then [] else TextsFrom(first, count - 1, text) + [text(first + count - 1)]
  }

  /** The dates of the walk: days + 1 of them, ending today. */
  function Dates(today: nat, days: nat): (r: seq<string>)
    requires days <= today
    ensures |r| == days + 1
  {
    TextsFrom(today - days, days + 1, DateOn)
  }

  lemma DatesAt(today: nat, days: nat, i: nat)
    requires i <= days <= today
    ensures Dates(today, days)[i] == DateOn(today - days + i) == DateText(CivilOf(today - days + i))
  {
    hide DateText, CivilOf;
  }

  method BuildDailyTotals(currentStars: int, currentForks: int, starsByDay: Counts, forksByDay: Counts, days: nat, today: nat)
    returns (result: array<DayTotal>)
    requires days <= today
    ensures fresh(result) && result.Length == days + 1
    ensures forall i :: 0 <= i <= days ==>
              && result[i].date == DateText(CivilOf(today - days + i))
              && result[i].stars == Walked(Dates(today, days), starsByDay, currentStars, i)
              && result[i].forks == Walked(Dates(today, days), forksByDay, currentForks, i)
  {
    hide DateOn, Walked, DateText, CivilOf;
    ghost var all := Dates(today, days);
    assert |all| == days + 1;
    hide Dates;
    var dates := new string[days + 1];
    for k := 0 to days + 1
      invariant forall j :: days - k < j <= days ==> dates[j] == all[j]
    {
      dates[days - k] := DateOn(today - k);
      DatesAt(today, days, days - k);
    }
    assert dates[..] == all;

    result := new DayTotal[days + 1](i => DayTotal("", 0, 0));
    var stars, forks := currentStars, currentForks;
    var i: int := days;
    WalkedLast(all, starsByDay, currentStars);
    WalkedLast(all, forksByDay, currentForks);
    while i >= 0
      invariant -1 <= i <= days && dates[..] == all
      invariant i >= 0 ==> stars == Walked(all, starsByDay, currentStars, i) && forks == Walked(all, forksByDay, currentForks, i)
      invariant forall k :: i < k <= days ==>
                  result[k] == TotalOn(all, currentStars, currentForks, starsByDay, forksByDay, k)
    {
      assert dates[i] == all[i];
      if i > 0 {
        WalkedBack(all, starsByDay, currentStars, i);
        WalkedBack(all, forksByDay, currentForks, i);
      }
      result[i] := DayTotal(dates[i], stars, forks);
      stars := stars - Count(starsByDay, dates[i]);
      forks := forks - Count(forksByDay, dates[i]);
      if stars < 0 {
        stars := 0;
      }
      if forks < 0 {
        forks := 0;
      }
      i := i - 1;
    }
    forall k | 0 <= k <= days ensures all[k] == DateText(CivilOf(today - days + k)) {
      DatesAt(today, days, k);
    }
  }

  function TotalOn(dates: seq<string>, currentStars: int, currentForks: int, starsByDay: Counts, forksByDay: Counts, i: nat): DayTotal
    requires i < |dates|
  {
    DayTotal(dates[i], Walked(dates, starsByDay, currentStars, i), Walked(dates, forksByDay, currentForks, i))
  }

  /** The running total as it stands when the walk comes to day i. */
  function Walked(dates: seq<string>, byDay: Counts, current: int, i: nat): int
    requires i < |dates|
    decreases |dates| - i
  {
    if i == |dates| - 1 then current
    else
      Max0(Walked(dates, byDay, current, i + 1) - Count(byDay, dates[i + 1]))
  }

  function Max0(x: int): nat {
    if x < 0 then 0 else x
  }

  lemma WalkedLast(dates: seq<string>, byDay: Counts, current: int)
    requires dates != []
    ensures Walked(dates, byDay, current, |dates| - 1) == current
  {
  }

  lemma WalkedBack(dates: seq<string>, byDay: Counts, current: int, i: nat)
    requires 0 < i < |dates|
    ensures Walked(dates, byDay, current, i - 1) == Max0(Walked(dates, byDay, current, i) - Count(byDay, dates[i]))
  {
  }

  // ---- Closed form ----

  /** What was gained on the days after day i. */
  function GainedAfter(dates: seq<string>, byDay: Counts, i: nat): nat
    requires i < |dates|
    decreases |dates| - i
  {
    if i == |dates| - 1 then 0
    else (if dates[i + 1] in byDay then byDay[dates[i + 1]] else 0) + GainedAfter(dates, byDay, i + 1)
  }

  /** Each day before the last holds the current total less all later gains, but never less than zero. */
  lemma {:induction false} WalkedClosedForm(dates: seq<string>, byDay: Counts, current: int, i: nat)
    requires i < |dates| - 1
    ensures Walked(dates, byDay, current, i) == Max0(current - GainedAfter(dates, byDay, i))
    decreases |dates| - i
  {
    if i < |dates| - 2 {
      WalkedClosedForm(dates, byDay, current, i + 1);
    }
  }

  ghost predicate NeverFalls(dates: seq<string>, byDay: Counts, current: int) {
    forall i, j :: 0 <= i <= j < |dates| ==> Walked(dates, byDay, current, i) <= Walked(dates, byDay, current, j)
  }

  lemma {:induction false} GainsAddUp(dates: seq<string>, byDay: Counts, i: nat, j: nat)
    requires i <= j < |dates|
    ensures GainedAfter(dates, byDay, i) >= GainedAfter(dates, byDay, j)
    decreases |dates| - i
  {
    if i < j {
      GainsAddUp(dates, byDay, i + 1, j);
    }
  }

  /** The series ends at the current total, and never falls exactly when that total is not negative or stands alone. */
  lemma NeverFallsIff(dates: seq<string>, byDay: Counts, current: int)
    requires dates != []
    ensures Walked(dates, byDay, current, |dates| - 1) == current
    ensures NeverFalls(dates, byDay, current) <==> current >= 0 || |dates| == 1
  {
    var n := |dates| - 1;
    if current >= 0 || n == 0 {
      forall i, j | 0 <= i <= j < |dates|
        ensures Walked(dates, byDay, current, i) <= Walked(dates, byDay, current, j)
      {
        if i < n {
          WalkedClosedForm(dates, byDay, current, i);
        }
        if j < n {
          WalkedClosedForm(dates, byDay, current, j);
          GainsAddUp(dates, byDay, i, j);
        }
      }
    } else {
      WalkedClosedForm(dates, byDay, current, n - 1);
      assert Walked(dates, byDay, current, n - 1) > Walked(dates, byDay, current, n);
    }
  }

  /** A negative total is reported as it is, after zeros. */
  lemma NegativeTotalFalls(dates: seq<string>, byDay: Counts)
    requires |dates| == 2
    ensures Walked(dates, byDay, -1, 0) == 0 && Walked(dates, byDay, -1, 1) == -1
    ensures !NeverFalls(dates, byDay, -1)
  {
    assert Walked(dates, byDay, -1, 0) > Walked(dates, byDay, -1, 1);
  }

  ghost predicate EveryGainShows(dates: seq<string>, byDay: Counts, current: int) {
    forall i :: 0 < i < |dates| ==>
      Walked(dates, byDay, current, i) - Walked(dates, byDay, current, i - 1)
      == if dates[i] in byDay then byDay[dates[i]] else 0
  }

  /** Every day's rise is that day's count, for all days, exactly when the current total covers all the gains. */
  lemma EveryGainShowsIff(dates: seq<string>, byDay: Counts, current: int)
    requires dates != []
    ensures EveryGainShows(dates, byDay, current)
            <==> current >= GainedAfter(dates, byDay, 0) || |dates| == 1
  {
    if current >= GainedAfter(dates, byDay, 0) {
      forall i | 0 < i < |dates|
        ensures Walked(dates, byDay, current, i) - Walked(dates, byDay, current, i - 1) == Count(byDay, dates[i])
      {
        GainShows(dates, byDay, current, i);
      }
    } else if |dates| > 1 {
      GainWalk(dates, byDay, current, 0);
      WalkedClosedForm(dates, byDay, current, 0);
    }
  }

  lemma GainShows(dates: seq<string>, byDay: Counts, current: int, i: nat)
    requires 0 < i < |dates| && current >= GainedAfter(dates, byDay, 0)
    ensures Walked(dates, byDay, current, i) - Walked(dates, byDay, current, i - 1) == Count(byDay, dates[i])
  {
    GainsAddUp(dates, byDay, 0, i - 1);
    WalkedClosedForm(dates, byDay, current, i - 1);
    if i < |dates| - 1 {
      WalkedClosedForm(dates, byDay, current, i);
    }
    assert GainedAfter(dates, byDay, i - 1) == Count(byDay, dates[i]) + GainedAfter(dates, byDay, i);
  }

  /** Three stars now but five gained today: yesterday is clamped at zero, and today's rise is three. */
  lemma GainsBeyondTotal(dates: seq<string>)
    requires dates == ["2024-03-03", "2024-03-04"]
    ensures Walked(dates, map["2024-03-04" := 5], 3, 1) - Walked(dates, map["2024-03-04" := 5], 3, 0) == 3
    ensures !EveryGainShows(dates, map["2024-03-04" := 5], 3)
  {
    assert Count(map["2024-03-04" := 5], dates[1]) == 5;
  }

  /** If every gain shows, the series is the current total less the later gains, with no clamping. */
  lemma {:induction false} GainWalk(dates: seq<string>, byDay: Counts, current: int, i: nat)
    requires i < |dates|
    ensures EveryGainShows(dates, byDay, current) ==> Walked(dates, byDay, current, i) == current - GainedAfter(dates, byDay, i)
    decreases |dates| - i
  {
    if i < |dates| - 1 {
      GainWalk(dates, byDay, current, i + 1);
      assert EveryGainShows(dates, byDay, current) ==>
        Walked(dates, byDay, current, i + 1) - Walked(dates, byDay, current, i + 1 - 1) == Count(byDay, dates[i + 1]);
    }
  }

  /** Up to year 9999 no two days of the walk share a date, so no count is taken off twice. */
  lemma DatesDistinct(today: nat, days: nat, i: nat, j: nat)
    requires days <= today && i < j <= days && CivilOf(today).year < 10000
    ensures Dates(today, days)[i] != Dates(today, days)[j]
  {
    hide DateText, CivilOf;
    DatesAt(today, days, i);
    DatesAt(today, days, j);
    hide Dates;
    MonthsAscend(today - days + i, today);
    MonthsAscend(today - days + j, today);
    LabelsTellApart(today - days + i, today - days + j);
  }
}
