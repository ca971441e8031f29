// What any series of imports of one repo does to its backfill cursor.
module BackfillRuns {
  import opened Options
  import opened Backfill

  // ---- One run ----

  ghost predicate InOrder(c: Conditions) {
    c.skipAt <= c.freshAt <= c.backfillAt
  }

  /** The last cursor value that a run saves, when the stored cursor was before. */
  function Saved(rows: Rows, before: int, cfg: Config, c: Conditions): Option<int> {
    if Skips(rows, c) || c.stopBeforeFresh then None
    else
      var freshStart := c.freshAt - cfg.freshDays * DAY;
      var until := if c.freshReadOk then before else freshStart;
      if !c.stopBeforeBackfill && until > Target(c.backfillAt) && c.backfillOk && c.backfillSaveOk
        then Some(ChunkStart(until, cfg.chunkDays, Target(c.backfillAt)))
      else if !c.freshReadOk && c.freshSaveOk then Some(freshStart)
      else None
  }

  lemma CursorAfterFresh(rows: Rows, cfg: Config, c: Conditions)
    requires rows != []
    ensures var (r, until) := FreshPass(rows, cfg, c);
            && r != []
            && (c.freshReadOk && Cursor(rows).Some? ==> Cursor(r) == Cursor(rows) == Some(until))
            && (!c.freshReadOk || Cursor(rows).None? ==>
                  && until == c.freshAt - cfg.freshDays * DAY
                  && Cursor(r) == if c.freshSaveOk then Some(until) else Cursor(rows))
  {
    var freshStart := c.freshAt - cfg.freshDays * DAY;
    ImportKeepsCursor(rows, freshStart, c.freshWritten);
    CursorOfSetAll(WriteStates(rows, rows, freshStart, c.freshWritten), freshStart);
    hide Cursor;
    hide SetAll;
    hide WriteStates;
  }

  lemma CursorAfterBackfill(rows: Rows, until: int, cfg: Config, c: Conditions)
    requires rows != []
    ensures var (r, w) := BackfillPass(rows, Some(until), cfg, c);
            && r != []
            && (w.Some? <==> until > Target(c.backfillAt))
            && (w.None? ==> r == rows)
            && (w.Some? ==>
                  && w.value.end == until
                  && w.value.start == ChunkStart(until, cfg.chunkDays, Target(c.backfillAt))
                  && Cursor(r) == if w.value.advanced then Some(w.value.start) else Cursor(rows))
  {
    var start := ChunkStart(until, cfg.chunkDays, Target(c.backfillAt));
    ImportKeepsCursor(rows, start, c.backfillWritten);
    CursorOfSetAll(WriteStates(rows, rows, start, c.backfillWritten), start);
  }

  /** A run leaves the last value it saved, or else the cursor it found. */
  lemma CursorAfterImport(rows: Rows, before: int, cfg: Config, c: Conditions)
    requires Cursor(rows) == Some(before)
    ensures Cursor(Import(rows, cfg, c).0) ==
            if Saved(rows, before, cfg, c).Some? then Saved(rows, before, cfg, c) else Some(before)
  {
    if !(Skips(rows, c) || c.stopBeforeFresh) {
      CursorAfterFresh(rows, cfg, c);
      var (imported, until) := FreshPass(rows, cfg, c);
      CursorAfterBackfill(imported, until, cfg, c);
    }
  }

  /** The backfill pass of a run takes a chunk from the fresh start and saves where it begins. */
  predicate AdvancesFromFresh(cfg: Config, c: Conditions) {
    && !c.stopBeforeBackfill && c.freshAt - cfg.freshDays * DAY > Target(c.backfillAt)
    && c.backfillOk && c.backfillSaveOk
  }

  /**
   * The cursor moves forward in a run exactly when the fresh pass runs, fails to
   * read it, and the stored cursor is before what is then saved: the start of
   * the chunk taken from the fresh start, or the fresh start itself.
   */
  lemma CursorMovesForwardIff(rows: Rows, before: int, cfg: Config, c: Conditions)
    requires Cursor(rows) == Some(before)
    ensures var after := Cursor(Import(rows, cfg, c).0);
            var freshStart := c.freshAt - cfg.freshDays * DAY;
            && after.Some?
            && (after.value > before <==>
                  && !Skips(rows, c) && !c.stopBeforeFresh && !c.freshReadOk
                  && if AdvancesFromFresh(cfg, c)
                     then before < freshStart - cfg.chunkDays * DAY || before < Target(c.backfillAt)
                     else c.freshSaveOk && before < freshStart)
  {
    CursorAfterImport(rows, before, cfg, c);
  }

  /** One failed read of the cursor, with the default settings, gives up 32 days of backfill. */
  lemma FailedReadLosesProgress(rows: Rows, c: Conditions)
    requires rows == [StateRow("pr", 1, 0, Some(40 * DAY))]
    requires c.skipAt == c.freshAt == c.backfillAt == 100 * DAY && c.metaOk && c.pushedAt.None?
    requires !c.stopBeforeFresh && !c.stopBeforeBackfill && !c.freshReadOk && c.freshSaveOk
    requires c.backfillOk && c.backfillSaveOk
    ensures Cursor(rows) == Some(40 * DAY)
    ensures Cursor(Import(rows, Config(21, 7), c).0) == Some(72 * DAY)
  {
    assert Cursor(rows[..0]) == None;
    CursorAfterImport(rows, 40 * DAY, Config(21, 7), c);
  }

  /**
   * While the cursor can be read and is after the target, a run that is not
   * stopped from outside asks for a window that ends at the cursor; it does
   * not skip the repo. At the target it asks for nothing.
   */
  lemma AsksExactlyWhilePending(rows: Rows, before: int, cfg: Config, c: Conditions)
    requires Cursor(rows) == Some(before) && InOrder(c)
    requires c.skipReadOk && c.freshReadOk && !c.stopBeforeFresh && !c.stopBeforeBackfill
    ensures var request := Import(rows, cfg, c).1;
            var target, chunk := c.backfillAt - 90 * 86400, before - cfg.chunkDays * 86400;
            && (request.Some? <==> before > target)
            && (request.Some? ==>
                  && request.value.end == before
                  && request.value.start == (if chunk < target then target else chunk)
                  && request.value.advanced == (c.backfillOk && c.backfillSaveOk))
            && (Skips(rows, c) ==> before <= c.skipAt - 90 * 86400)
  {
    CursorAfterFresh(rows, cfg, c);
    CursorAfterBackfill(FreshPass(rows, cfg, c).0, before, cfg, c);
  }

  ghost predicate DistinctTypes(rows: Rows) {
    forall j, k :: 0 <= j < k < |rows| ==> rows[j].eventType != rows[k].eventType
  }

  /**
   * The stored resume point of an event type never moves back, and a flush takes
   * it to the window start at least: a backfill window does not reopen what
   * lies before the resume point that the fresh pass left.
   */
  lemma {:induction false} ResumePointNeverMovesBack(rows: Rows, windowStart: int, written: seq<Written>, i: nat)
    requires i < |rows| && DistinctTypes(rows)
    ensures var after := WriteStates(rows, rows, windowStart, written);
            && i < |after| && after[i].eventType == rows[i].eventType
            && after[i].since >= rows[i].since
            && ((exists w :: w in written && w.eventType == rows[i].eventType) ==> after[i].since >= windowStart)
  {
    hide Cursor;
    ImportKeepsCursors(rows, windowStart, written);
    if written != [] {
      var n := |written| - 1;
      ImportKeepsCursors(rows, windowStart, written[..n]);
      ResumePointNeverMovesBack(rows, windowStart, written[..n], i);
      FoundAgain(WriteStates(rows, rows, windowStart, written[..n]), rows, written[n].eventType);
      assert written == written[..n] + [written[n]];
      var k := FindRow(rows, rows[i].eventType);
      assert k == i;
    }
  }

  // ---- Series of runs ----

  function Runs(rows: Rows, cfg: Config, cs: seq<Conditions>): (Rows, seq<Window>) {
    if cs == [] then (rows, [])
    else
      var n := |cs| - 1;
      var (before, log) := Runs(rows, cfg, cs[..n]);
      var (after, request) := Import(before, cfg, cs[n]);
      (after, if request.Some? then log + [request.value] else log)
  }

  /** The clock never goes back, from t0 on. */
  ghost predicate Clocked(t0: int, cs: seq<Conditions>) {
    && (forall i :: 0 <= i < |cs| ==> t0 <= cs[i].skipAt && InOrder(cs[i]))
    && (forall i, j :: 0 <= i < j < |cs| ==> cs[i].backfillAt <= cs[j].skipAt)
  }

  ghost predicate CursorsRead(cs: seq<Conditions>) {
    forall i :: 0 <= i < |cs| ==> cs[i].freshReadOk
  }

  /**
   * The windows start at from and lead to cursor: each begins where the last
   * advanced one stopped, a window that was not advanced is asked for again.
   */
  ghost predicate Chain(from: int, log: seq<Window>, cursor: int) {
    if log == [] then cursor == from
    else
      var w := log[|log| - 1];
      && Chain(from, log[..|log| - 1], w.end)
      && w.start < w.end
      && cursor == if w.advanced then w.start else w.end
  }

  function Advanced(log: seq<Window>): nat {
    if log == [] then 0 else Advanced(log[..|log| - 1]) + (if log[|log| - 1].advanced then 1 else 0)
  }

  lemma {:induction false} RunsChain(rows: Rows, cfg: Config, cs: seq<Conditions>, from: int)
    requires cfg.chunkDays >= 1 && Cursor(rows) == Some(from) && CursorsRead(cs)
    ensures var (after, log) := Runs(rows, cfg, cs);
            Cursor(after).Some? && Chain(from, log, Cursor(after).value)
  {
    if cs != [] {
      var n := |cs| - 1;
      RunsChain(rows, cfg, cs[..n], from);
      var (before, log) := Runs(rows, cfg, cs[..n]);
      ImportChains(before, Cursor(before).value, cfg, cs[n], from, log);
    }
  }

  lemma ImportChains(rows: Rows, before: int, cfg: Config, c: Conditions, from: int, log: seq<Window>)
    requires cfg.chunkDays >= 1 && Cursor(rows) == Some(before) && c.freshReadOk && Chain(from, log, before)
    ensures var (after, request) := Import(rows, cfg, c);
            && Cursor(after).Some?
            && Chain(from, if request.Some? then log + [request.value] else log, Cursor(after).value)
  {
    if !(Skips(rows, c) || c.stopBeforeFresh) {
      CursorAfterFresh(rows, cfg, c);
      var (imported, until) := FreshPass(rows, cfg, c);
      CursorAfterBackfill(imported, until, cfg, c);
      var request := Import(rows, cfg, c).1;
      if request.Some? {
        assert (log + [request.value])[..|log|] == log;
      }
    }
  }

  // ---- The advanced windows tile what lies between the cursors ----

  function Covering(log: seq<Window>, x: int): nat {
    if log == [] then 0
    else
      var w := log[|log| - 1];
      Covering(log[..|log| - 1], x) + (if w.advanced && w.start <= x < w.end then 1 else 0)
  }

  /**
   * Successive windows are adjacent and do not overlap: every moment between the
   * final cursor and the first one lies in exactly one advanced window, any
   * other moment in none.
   */
  lemma {:induction false} WindowsTile(from: int, log: seq<Window>, cursor: int, x: int)
    requires Chain(from, log, cursor)
    ensures cursor <= from
    ensures Covering(log, x) == if cursor <= x < from then 1 else 0
  {
    if log != [] {
      WindowsTile(from, log[..|log| - 1], log[|log| - 1].end, x);
    }
  }

  // ---- Reaching the target ----

  /** How far back the advanced windows of a log go at most. */
  function Retreat(log: seq<Window>, chunk: nat): nat {
    if log == [] then 0 else Retreat(log[..|log| - 1], chunk) + (if log[|log| - 1].advanced then chunk else 0)
  }

  lemma {:induction false} RetreatIsProduct(log: seq<Window>, chunk: nat)
    ensures Retreat(log, chunk) == Advanced(log) * chunk
  {
    if log != [] {
      var before := log[..|log| - 1];
      RetreatIsProduct(before, chunk);
      assert (Advanced(before) + 1) * chunk == Advanced(before) * chunk + chunk;
    }
  }

  lemma {:induction false} ProgressBound(rows: Rows, cfg: Config, cs: seq<Conditions>, from: int, t0: int, now: int)
    requires cfg.chunkDays >= 1 && Cursor(rows) == Some(from) && CursorsRead(cs) && Clocked(t0, cs)
    requires forall i :: 0 <= i < |cs| ==> cs[i].backfillAt <= now
    ensures var (after, log) := Runs(rows, cfg, cs);
            && Cursor(after).Some?
            && (|| Cursor(after).value <= from - Retreat(log, cfg.chunkDays * DAY)
                || Cursor(after).value <= Target(now))
  {
    RunsChain(rows, cfg, cs, from);
    if cs != [] {
      var n := |cs| - 1;
      RunsChain(rows, cfg, cs[..n], from);
      ProgressBound(rows, cfg, cs[..n], from, t0, now);
      var (before, log) := Runs(rows, cfg, cs[..n]);
      ImportProgress(before, Cursor(before).value, cfg, cs[n]);
      var request := Import(before, cfg, cs[n]).1;
      if request.Some? {
        assert (log + [request.value])[..|log|] == log;
      }
    }
  }

  lemma ImportProgress(rows: Rows, before: int, cfg: Config, c: Conditions)
    requires cfg.chunkDays >= 1 && Cursor(rows) == Some(before) && c.freshReadOk
    ensures var (after, request) := Import(rows, cfg, c);
            && Cursor(after).Some?
            && (request.None? || !request.value.advanced ==> Cursor(after).value == before)
            && (request.Some? && request.value.advanced ==>
                  || Cursor(after).value == before - cfg.chunkDays * DAY
                  || Cursor(after).value == Target(c.backfillAt))
  {
    if !(Skips(rows, c) || c.stopBeforeFresh) {
      CursorAfterFresh(rows, cfg, c);
      var (imported, until) := FreshPass(rows, cfg, c);
      CursorAfterBackfill(imported, until, cfg, c);
    }
  }

  /** Passes that are enough to go from freshDays back to the target. */
  function PassesNeeded(cfg: Config): nat
    requires cfg.chunkDays >= 1
  {
    if cfg.freshDays >= TARGET_DAYS then 0 else (TARGET_DAYS - cfg.freshDays + cfg.chunkDays - 1) / cfg.chunkDays
  }

  lemma PassesCover(cfg: Config, k: nat)
    requires cfg.chunkDays >= 1 && k >= PassesNeeded(cfg)
    ensures k * cfg.chunkDays >= TARGET_DAYS - cfg.freshDays
  {
    if cfg.freshDays < TARGET_DAYS {
      var a, q := TARGET_DAYS - cfg.freshDays + cfg.chunkDays - 1, PassesNeeded(cfg);
      assert a == q * cfg.chunkDays + a % cfg.chunkDays;
      assert k * cfg.chunkDays >= q * cfg.chunkDays;
    }
  }

  lemma EnoughRetreat(cfg: Config, log: seq<Window>)
    requires cfg.chunkDays >= 1 && Advanced(log) >= PassesNeeded(cfg)
    ensures cfg.freshDays * DAY + Retreat(log, cfg.chunkDays * DAY) >= TARGET_DAYS * DAY
  {
    var k := Advanced(log);
    PassesCover(cfg, k);
    RetreatIsProduct(log, cfg.chunkDays * DAY);
    assert k * (cfg.chunkDays * DAY) == (k * cfg.chunkDays) * DAY;
  }

  /**
   * From a cursor set freshDays back at t0, as many advanced passes as
   * ceil((90 - fresh) / chunk) bring it to the target, and from then on the
   * backfill pass does nothing.
   */
  lemma BackfillReachesTarget(rows: Rows, cfg: Config, cs: seq<Conditions>, t0: int, next: Conditions)
    requires cfg.chunkDays >= 1 && Cursor(rows) == Some(t0 - cfg.freshDays * DAY)
    requires CursorsRead(cs) && Clocked(t0, cs)
    requires t0 <= next.backfillAt && forall i :: 0 <= i < |cs| ==> cs[i].backfillAt <= next.backfillAt
    requires Advanced(Runs(rows, cfg, cs).1) >= PassesNeeded(cfg)
    ensures var after := Runs(rows, cfg, cs).0;
            && Cursor(after).Some? && Cursor(after).value <= next.backfillAt - 90 * 86400
            && BackfillPass(after, Cursor(after), cfg, next) == (after, None)
  {
    ProgressBound(rows, cfg, cs, t0 - cfg.freshDays * DAY, t0, next.backfillAt);
    EnoughRetreat(cfg, Runs(rows, cfg, cs).1);
  }

  /** However many imports run, no more passes than that are made. */
  lemma {:induction false} PassesBounded(rows: Rows, cfg: Config, cs: seq<Conditions>, t0: int)
    requires cfg.chunkDays >= 1 && Cursor(rows) == Some(t0 - cfg.freshDays * DAY)
    requires CursorsRead(cs) && Clocked(t0, cs)
    ensures Advanced(Runs(rows, cfg, cs).1) <= PassesNeeded(cfg)
  {
    if cs != [] {
      var n := |cs| - 1;
      var init, c := cs[..n], cs[n];
      PassesBounded(rows, cfg, init, t0);
      var (before, log) := Runs(rows, cfg, init);
      var request := Import(before, cfg, c).1;
      if Advanced(log) == PassesNeeded(cfg) {
        BackfillReachesTarget(rows, cfg, init, t0, c);
        NoPassAtTarget(before, Cursor(before).value, cfg, c);
      }
      if request.Some? {
        assert (log + [request.value])[..|log|] == log;
      }
    }
  }

  lemma NoPassAtTarget(rows: Rows, before: int, cfg: Config, c: Conditions)
    requires Cursor(rows) == Some(before) && before <= Target(c.backfillAt) && c.freshReadOk
    ensures Import(rows, cfg, c).1 == None
  {
    if !(Skips(rows, c) || c.stopBeforeFresh) {
      CursorAfterFresh(rows, cfg, c);
    }
  }

  // ---- The first import ----

  /**
   * The first import of a repo finds no cursor, and usually no rows either. Once
   * its fresh pass has written some, it sets the cursor to the fresh start and
   * takes its first chunk from there.
   */
  lemma FirstImportStartsChain(rows: Rows, cfg: Config, c: Conditions)
    requires cfg.chunkDays >= 1 && Cursor(rows) == None && (rows != [] || c.freshWritten != [])
    requires !Skips(rows, c) && !c.stopBeforeFresh && c.freshSaveOk
    ensures var (after, request) := Import(rows, cfg, c); var from := c.freshAt - cfg.freshDays * DAY;
            && Cursor(after).Some?
            && Chain(from, if request.Some? then [request.value] else [], Cursor(after).value)
  {
    hide FreshPass, BackfillPass, Cursor;
    FreshFromNone(rows, cfg, c);
    var (imported, until) := FreshPass(rows, cfg, c);
    CursorAfterBackfill(imported, until, cfg, c);
    var request := Import(rows, cfg, c).1;
    if request.Some? {
      assert [request.value][..0] == [];
    }
  }

  lemma {:induction false} NeverEmptied(rows: Rows, loaded: Rows, windowStart: int, written: seq<Written>)
    ensures WriteStates(rows, loaded, windowStart, written) == [] <==> rows == [] && written == []
  {
    if written != [] {
      NeverEmptied(rows, loaded, windowStart, written[..|written| - 1]);
    }
  }

  lemma CursorOfWritten(rows: Rows, start: int, written: seq<Written>)
    requires Cursor(rows) == None
    ensures var r := WriteStates(rows, rows, start, written);
            && (r == [] <==> rows == [] && written == [])
            && Cursor(r) == None
            && (SetAll(r, start) == [] <==> r == [])
            && Cursor(SetAll(r, start)) == if r == [] then None else Some(start)
  {
    NeverEmptied(rows, rows, start, written);
    ImportKeepsCursor(rows, start, written);
    CursorOfSetAll(WriteStates(rows, rows, start, written), start);
  }

  /** The cursor and the rows that a fresh pass leaves when it finds no cursor. */
  lemma FreshFromNone(rows: Rows, cfg: Config, c: Conditions)
    requires Cursor(rows) == None
    ensures var (r, until) := FreshPass(rows, cfg, c);
            && until == c.freshAt - cfg.freshDays * DAY
            && (r == [] <==> rows == [] && c.freshWritten == [])
            && Cursor(r) == if r != [] && c.freshSaveOk then Some(until) else None
  {
    hide Cursor, SetAll, WriteStates;
    CursorOfWritten(rows, c.freshAt - cfg.freshDays * DAY, c.freshWritten);
  }

  lemma BackfillStores(rows: Rows, until: int, cfg: Config, c: Conditions)
    ensures var after := BackfillPass(rows, Some(until), cfg, c).0;
            Cursor(after).Some? <==>
              || Cursor(rows).Some?
              || (until > Target(c.backfillAt) && c.backfillOk && c.backfillSaveOk && (rows != [] || c.backfillWritten != []))
  {
    var start := ChunkStart(until, cfg.chunkDays, Target(c.backfillAt));
    NeverEmptied(rows, rows, start, c.backfillWritten);
    ImportKeepsCursor(rows, start, c.backfillWritten);
    CursorOfSetAll(WriteStates(rows, rows, start, c.backfillWritten), start);
    hide Cursor, SetAll, WriteStates, ChunkStart;
  }

  /**
   * An import that finds no cursor leaves one exactly when one of its two saves
   * succeeds and finds a row to save it in.
   */
  lemma CursorStoredIff(rows: Rows, cfg: Config, c: Conditions)
    requires Cursor(rows) == None && !Skips(rows, c) && !c.stopBeforeFresh
    ensures Cursor(Import(rows, cfg, c).0).Some? <==>
              || ((rows != [] || c.freshWritten != []) && c.freshSaveOk)
              || (AdvancesFromFresh(cfg, c) && (rows != [] || c.freshWritten != [] || c.backfillWritten != []))
  {
    hide Cursor, Skips, FreshPass, BackfillPass;
    FreshFromNone(rows, cfg, c);
    var (imported, until) := FreshPass(rows, cfg, c);
    BackfillStores(imported, until, cfg, c);
  }

  /**
   * So while no flush writes a state row there is nothing to save the cursor in: it
   * stays unset, although the backfill pass asks for its chunk and counts it as done.
   */
  lemma NoRowsNoCursor(cfg: Config, c: Conditions)
    requires c.freshWritten == [] && c.backfillWritten == []
    ensures Import([], cfg, c).0 == []
    ensures !c.stopBeforeFresh && AdvancesFromFresh(cfg, c) ==>
              Import([], cfg, c).1.Some? && Import([], cfg, c).1.value.advanced
  {
    assert WriteStates([], [], c.freshAt - cfg.freshDays * DAY, []) == [];
    assert SetAll([], c.freshAt - cfg.freshDays * DAY) == [];
  }
}
