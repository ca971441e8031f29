// The backfill cursor of one repo: the state rows that hold it, one import run,
// and what a series of runs does to it. Times are whole seconds, in UTC.
module Backfill {
  import opened Options

  const DAY: nat := 86400

  /** data.EventAgeDaysDefault: how far back the backfill reaches. */
  const TARGET_DAYS: nat := 90

  // ---- Stored state ----

  /** A devpulse_state row of the repo, one for each event type. */
  datatype StateRow = StateRow(eventType: string, page: nat, since: int, backfillUntil: Option<int>)

  type Rows = seq<StateRow>

  function Smaller(a: Option<int>, b: Option<int>): Option<int> {
    if a.None? then b else if b.None? then a else if a.value <= b.value then a else b
  }

  /** SELECT MIN(backfill_until): the cursor. */
  function Cursor(rows: Rows): Option<int> {
    if rows == [] then None else Smaller(Cursor(rows[..|rows| - 1]), rows[|rows| - 1].backfillUntil)
  }

  /** It is unset when every row's is, and otherwise the least of those that are set. */
  lemma {:induction false} CursorIsLeast(rows: Rows)
    ensures Cursor(rows).None? ==> forall i :: 0 <= i < |rows| ==> rows[i].backfillUntil.None?
    ensures Cursor(rows).Some? ==>
              && (exists i :: 0 <= i < |rows| && rows[i].backfillUntil == Cursor(rows))
              && (forall i :: 0 <= i < |rows| && rows[i].backfillUntil.Some? ==>
                    Cursor(rows).value <= rows[i].backfillUntil.value)
  {
    if rows != [] {
      var n := |rows| - 1;
      CursorIsLeast(rows[..n]);
      if i :| 0 <= i < n && rows[..n][i].backfillUntil == Cursor(rows[..n]) {
        assert rows[i].backfillUntil == Cursor(rows[..n]);
      }
      assert rows[n].backfillUntil == rows[n].backfillUntil;
    }
  }

  /** UPDATE ... SET backfill_until on every row of the repo. */
  function SetAll(rows: Rows, until: int): (r: Rows)
    ensures |r| == |rows|
    ensures forall i :: 0 <= i < |rows| ==>
              r[i] == StateRow(rows[i].eventType, rows[i].page, rows[i].since, Some(until))
  {
    if rows == [] then []
    else SetAll(rows[..|rows| - 1], until) + [rows[|rows| - 1].(backfillUntil := Some(until))]
  }

  function FindRow(rows: Rows, eventType: string): (i: nat)
    ensures i <= |rows|
    ensures i < |rows| ==> rows[i].eventType == eventType
    ensures forall j :: 0 <= j < i ==> rows[j].eventType != eventType
  {
    if rows == [] || rows[0].eventType == eventType then 0 else 1 + FindRow(rows[1..], eventType)
  }

  /** GetState, as loadState adjusts it: first page, and not before the window start. */
  function Loaded(rows: Rows, eventType: string, windowStart: int): StateRow {
    var i := FindRow(rows, eventType);
    if i < |rows| then rows[i].(page := 1, since := if rows[i].since < windowStart then windowStart else rows[i].since)
    else StateRow(eventType, 1, windowStart, None)
  }

  function UpsertRow(rows: Rows, row: StateRow): Rows {
    var i := FindRow(rows, row.eventType);
    if i < |rows| then rows[i := row] else rows + [row]
  }

  /** An event type whose state a flush wrote, and the page it had reached. */
  datatype Written = Written(eventType: string, page: nat)

  /** What the flushes of one ImportEvents leave of the rows it loaded. */
  function WriteStates(rows: Rows, loaded: Rows, windowStart: int, written: seq<Written>): Rows {
    if written == [] then rows
    else
      var w := written[|written| - 1];
      UpsertRow(WriteStates(rows, loaded, windowStart, written[..|written| - 1]),
                Loaded(loaded, w.eventType, windowStart).(page := w.page))
  }

  // ---- The state rows that a flush writes when its batches are stored ----

  /** The states of an importer, by event type. */
  type States = map<string, StateRow>

  ghost predicate KeyedByType(states: States) {
    forall t :: t in states ==> states[t].eventType == t
  }

  function RowsWith(rows: Rows, states: States, types: seq<string>): Rows
    requires forall i :: 0 <= i < |types| ==> types[i] in states
  {
    if types == [] then rows
    else UpsertRow(RowsWith(rows, states, types[..|types| - 1]), states[types[|types| - 1]])
  }

  /** The stored row of an event type. */
  function RowOf(rows: Rows, eventType: string): Option<StateRow> {
    var i := FindRow(rows, eventType);
    if i < |rows| then Some(rows[i]) else None
  }

  lemma UpsertedRow(rows: Rows, row: StateRow, eventType: string)
    ensures RowOf(UpsertRow(rows, row), eventType) == if eventType == row.eventType then Some(row) else RowOf(rows, eventType)
  {
    var i, after := FindRow(rows, row.eventType), UpsertRow(rows, row);
    assert forall j :: 0 <= j < |rows| && j != i ==> after[j] == rows[j];
    if eventType == row.eventType {
      assert after[i] == row;
    }
    var k := FindRow(rows, eventType);
    FirstRow(after, eventType, if eventType == row.eventType then i else if k < |rows| then k else |after|);
  }

  lemma FirstRow(rows: Rows, eventType: string, i: nat)
    requires forall j :: 0 <= j < i && j < |rows| ==> rows[j].eventType != eventType
    requires i <= |rows| && (i < |rows| ==> rows[i].eventType == eventType)
    ensures FindRow(rows, eventType) == i
  {
  }

  /** The types written have the states of the snapshot, the others keep their rows. */
  lemma {:induction false} RowsHoldStates(rows: Rows, states: States, types: seq<string>, eventType: string)
    requires KeyedByType(states) && forall i :: 0 <= i < |types| ==> types[i] in states
    ensures RowOf(RowsWith(rows, states, types), eventType)
            == if eventType in types then Some(states[eventType]) else RowOf(rows, eventType)
  {
    if types != [] {
      var n := |types| - 1;
      RowsHoldStates(rows, states, types[..n], eventType);
      assert types == types[..n] + [types[n]];
      UpsertedRow(RowsWith(rows, states, types[..n]), states[types[n]], eventType);
    }
  }

  class StateStore {
    var rows: Rows

    constructor (rows: Rows)
      ensures this.rows == rows
    {
      this.rows := rows;
    }

    method GetBackfillUntil(readOk: bool) returns (ok: bool, until: Option<int>)
      ensures ok == readOk && until == if readOk then Cursor(rows) else None
    {
      ok, until := readOk, None;
      if !readOk {
        return;
      }
      for i := 0 to |rows|
        invariant until == Cursor(rows[..i])
      {
        assert rows[..i + 1][..i] == rows[..i];
        if rows[i].backfillUntil.Some? && (until.None? || rows[i].backfillUntil.value < until.value) {
          until := rows[i].backfillUntil;
        }
      }
      assert rows[..|rows|] == rows;
    }

    method SaveBackfillUntil(until: int, saveOk: bool)
      modifies this
      ensures rows == if saveOk then SetAll(old(rows), until) else old(rows)
    {
      if !saveOk {
        return;
      }
      var updated := [];
      for i := 0 to |rows|
        invariant rows == old(rows) && updated == SetAll(rows[..i], until)
      {
        assert rows[..i + 1][..i] == rows[..i];
        updated := updated + [rows[i].(backfillUntil := Some(until))];
      }
      assert rows[..|rows|] == rows;
      rows := updated;
    }

    /** Writes the states one by one, in no particular order; write number failAt fails. */
    method SaveStates(states: States, failAt: nat) returns (ok: bool, ghost written: seq<string>)
      modifies this
      ensures forall i :: 0 <= i < |written| ==> written[i] in states
      ensures rows == RowsWith(old(rows), states, written)
      ensures ok <==> forall t :: t in states ==> t in written
      ensures !ok ==> |written| == failAt
    {
      written := [];
      var todo := states.Keys;
      var count := 0;
      while todo != {}
        invariant todo <= states.Keys && count == |written| <= failAt
        invariant forall i :: 0 <= i < |written| ==> written[i] in states
        invariant forall t :: t in states ==> (t in written <==> t !in todo)
        invariant rows == RowsWith(old(rows), states, written)
        decreases todo
      {
        var t :| t in todo;
        if count == failAt {
          return false, written;
        }
        var i := FindRow(rows, states[t].eventType);
        rows := if i < |rows| then rows[i := states[t]] else rows + [states[t]];
        assert (written + [t])[..|written|] == written;
        written := written + [t];
        count := count + 1;
        todo := todo - {t};
      }
      ok := true;
    }

    /** The state rows after an import: written says which types a flush got to. */
    method ImportEvents(windowStart: int, written: seq<Written>)
      modifies this
      ensures rows == WriteStates(old(rows), old(rows), windowStart, written)
    {
      var loaded := rows;
      for i := 0 to |written|
        invariant rows == WriteStates(loaded, loaded, windowStart, written[..i])
      {
        assert written[..i + 1][..i] == written[..i];
        var row := Loaded(loaded, written[i].eventType, windowStart).(page := written[i].page);
        var j := FindRow(rows, row.eventType);
        rows := if j < |rows| then rows[j := row] else rows + [row];
      }
      assert written[..|written|] == written;
    }
  }

  // ---- The skip check ----

  function ShouldSkipUnchangedRepo(pushedAt: Option<int>, maxEventTime: Option<int>, hasForkData: bool): bool {
    pushedAt.Some? && maxEventTime.Some? && hasForkData && pushedAt.value <= maxEventTime.value
  }

  /** Everything a run meets outside: clock readings and the outcome of each call. */
  datatype Conditions = Conditions(
    skipAt: int, freshAt: int, backfillAt: int,
    metaOk: bool, pushedAt: Option<int>, stateReadOk: bool,
    maxEventReadOk: bool, maxEventTime: Option<int>, forkReadOk: bool, hasForkData: bool, skipReadOk: bool,
    stopBeforeFresh: bool, freshWritten: seq<Written>, freshReadOk: bool, freshSaveOk: bool,
    stopBeforeBackfill: bool, backfillWritten: seq<Written>, backfillOk: bool, backfillSaveOk: bool)

  datatype Config = Config(freshDays: nat, chunkDays: nat)

  function Target(now: int): int {
    now - TARGET_DAYS * DAY
  }

  /** Skip an unchanged repo, unless its cursor was read and is still after the target. */
  function Skips(rows: Rows, c: Conditions): bool {
    && c.metaOk && c.pushedAt.Some?
    && c.stateReadOk && rows != []
    && c.maxEventReadOk && c.forkReadOk
    && ShouldSkipUnchangedRepo(c.pushedAt, c.maxEventTime, c.hasForkData)
    && !(c.skipReadOk && Cursor(rows).Some? && Cursor(rows).value > Target(c.skipAt))
  }

  method ImportMetaAndCheckSkip(store: StateStore, c: Conditions) returns (metaOk: bool, skip: bool)
    ensures metaOk == c.metaOk && skip == Skips(store.rows, c)
  {
    if !c.metaOk {
      return false, false;
    }
    if c.pushedAt.None? {
      return true, false;
    }
    if !c.stateReadOk {
      return true, false;
    }
    if |store.rows| == 0 {
      return true, false;
    }
    if !c.maxEventReadOk {
      return true, false;
    }
    if !c.forkReadOk {
      return true, false;
    }
    if ShouldSkipUnchangedRepo(c.pushedAt, c.maxEventTime, c.hasForkData) {
      var targetDate := c.skipAt - TARGET_DAYS * DAY;
      var ok, backfillUntil := store.GetBackfillUntil(c.skipReadOk);
      if ok && backfillUntil.Some? && backfillUntil.value > targetDate {
        return true, false;
      }
      return true, true;
    }
    return true, false;
  }

  // ---- The two passes ----

  /** A requested window; advanced when the import succeeded and the cursor was saved. */
  datatype Window = Window(start: int, end: int, advanced: bool)

  function FreshPass(rows: Rows, cfg: Config, c: Conditions): (Rows, int) {
    var freshStart := c.freshAt - cfg.freshDays * DAY;
    var imported := WriteStates(rows, rows, freshStart, c.freshWritten);
    var until := if c.freshReadOk then Cursor(imported) else None;
    if until.Some? then (imported, until.value)
    else (if c.freshSaveOk then SetAll(imported, freshStart) else imported, freshStart)
  }

  method RunFreshPass(store: StateStore, cfg: Config, c: Conditions) returns (backfillUntil: int)
    modifies store
    ensures (store.rows, backfillUntil) == FreshPass(old(store.rows), cfg, c)
  {
    var freshStart := c.freshAt - cfg.freshDays * DAY;
    store.ImportEvents(freshStart, c.freshWritten);
    var _, until := store.GetBackfillUntil(c.freshReadOk);
    if until.None? {
      store.SaveBackfillUntil(freshStart, c.freshSaveOk);
      return freshStart;
    }
    return until.value;
  }

  function ChunkStart(until: int, chunkDays: nat, target: int): int {
    if until - chunkDays * DAY < target then target else until - chunkDays * DAY
  }

  function BackfillPass(rows: Rows, until: Option<int>, cfg: Config, c: Conditions): (Rows, Option<Window>) {
    var target := Target(c.backfillAt);
    if until.None? || until.value <= target then (rows, None)
    else
      var start := ChunkStart(until.value, cfg.chunkDays, target);
      var imported := WriteStates(rows, rows, start, c.backfillWritten);
      if c.backfillOk && c.backfillSaveOk then (SetAll(imported, start), Some(Window(start, until.value, true)))
      else (imported, Some(Window(start, until.value, false)))
  }

  method RunBackfillPass(store: StateStore, until: Option<int>, cfg: Config, c: Conditions)
    returns (ok: bool, request: Option<Window>)
    modifies store
    ensures (store.rows, request) == BackfillPass(old(store.rows), until, cfg, c)
    ensures ok <==> request.None? || c.backfillOk
  {
    var targetDate := c.backfillAt - TARGET_DAYS * DAY;
    if until.None? || until.value <= targetDate {
      return true, None;
    }
    var chunkStart := until.value - cfg.chunkDays * DAY;
    if chunkStart < targetDate {
      chunkStart := targetDate;
    }
    var chunkEnd := until.value;
    store.ImportEvents(chunkStart, c.backfillWritten);
    if !c.backfillOk {
      return false, Some(Window(chunkStart, chunkEnd, false));
    }
    store.SaveBackfillUntil(chunkStart, c.backfillSaveOk);
    return true, Some(Window(chunkStart, chunkEnd, c.backfillSaveOk));
  }

  /** One import of the repo: the rows it leaves and the window it asked to backfill. */
  function Import(rows: Rows, cfg: Config, c: Conditions): (Rows, Option<Window>) {
    if Skips(rows, c) || c.stopBeforeFresh then (rows, None)
    else
      var (imported, until) := FreshPass(rows, cfg, c);
      if c.stopBeforeBackfill then (imported, None)
      else BackfillPass(imported, Some(until), cfg, c)
  }

  method ImportRepo(store: StateStore, cfg: Config, c: Conditions) returns (skipped: bool, request: Option<Window>)
    modifies store
    ensures (store.rows, request) == Import(old(store.rows), cfg, c)
    ensures skipped == Skips(old(store.rows), c)
    ensures c.pushedAt.Some? && c.maxEventTime.Some? && c.pushedAt.value > c.maxEventTime.value ==> !skipped
  {
    SkipsIff(store.rows, c);
    request := None;
    var metaOk;
    metaOk, skipped := ImportMetaAndCheckSkip(store, c);
    if skipped || c.stopBeforeFresh {
      return;
    }
    var backfillUntil := RunFreshPass(store, cfg, c);
    if c.stopBeforeBackfill {
      return;
    }
    var ok;
    ok, request := RunBackfillPass(store, Some(backfillUntil), cfg, c);
  }

  /**
   * An import skips exactly when all its reads succeed, the repo was not pushed
   * since its last event, has state rows and fork data, and its cursor could
   * not be read or is not after the target, 90 days back.
   */
  lemma SkipsIff(rows: Rows, c: Conditions)
    ensures Skips(rows, c) <==>
              && c.metaOk && c.stateReadOk && c.maxEventReadOk && c.forkReadOk && rows != [] && c.hasForkData
              && c.pushedAt.Some? && c.maxEventTime.Some? && !(c.pushedAt.value > c.maxEventTime.value)
              && (c.skipReadOk ==> Cursor(rows).None? || Cursor(rows).value <= c.skipAt - 90 * 86400)
  {
    hide Cursor;
  }

  // ---- The resume points that an import leaves ----

  /** The later of a stored resume point and the window start; the start where none is stored. */
  function Later(stored: Option<StateRow>, start: int): int {
    if stored.Some? && stored.value.since > start then stored.value.since else start
  }

  function StoredCursor(stored: Option<StateRow>): Option<int> {
    if stored.Some? then stored.value.backfillUntil else None
  }

  /** The page that the last write of a type had reached; None when there is none. */
  function LastPage(written: seq<Written>, eventType: string): Option<nat> {
    if written == [] then None
    else if written[|written| - 1].eventType == eventType then Some(written[|written| - 1].page)
    else LastPage(written[..|written| - 1], eventType)
  }

  lemma LoadedRow(rows: Rows, eventType: string, start: int)
    ensures Loaded(rows, eventType, start)
            == StateRow(eventType, 1, Later(RowOf(rows, eventType), start), StoredCursor(RowOf(rows, eventType)))
  {
  }

  /** A type that a flush wrote resumes from the later of its old point and the window start; others keep their rows. */
  lemma {:induction false} WrittenRow(rows: Rows, loaded: Rows, start: int, written: seq<Written>, eventType: string)
    ensures RowOf(WriteStates(rows, loaded, start, written), eventType) ==
      match LastPage(written, eventType)
      case None => RowOf(rows, eventType)
      case Some(page) =>
        Some(StateRow(eventType, page, Later(RowOf(loaded, eventType), start), StoredCursor(RowOf(loaded, eventType))))
  {
    if written != [] {
      var n := |written| - 1;
      WrittenRow(rows, loaded, start, written[..n], eventType);
      LoadedRow(loaded, written[n].eventType, start);
      UpsertedRow(WriteStates(rows, loaded, start, written[..n]),
                  Loaded(loaded, written[n].eventType, start).(page := written[n].page), eventType);
    }
  }

  lemma RowOfSetAll(rows: Rows, until: int, eventType: string)
    ensures RowOf(SetAll(rows, until), eventType) ==
            if RowOf(rows, eventType).None? then None
            else Some(RowOf(rows, eventType).value.(backfillUntil := Some(until)))
  {
    var i := FindRow(rows, eventType);
    FirstRow(SetAll(rows, until), eventType, i);
  }

  /** A row's resume point is since. */
  ghost predicate ResumesAt(rows: Rows, eventType: string, since: int) {
    RowOf(rows, eventType).Some? && RowOf(rows, eventType).value.since == since
  }

  /** The fresh pass leaves each type it wrote at the later of its old point and freshDays back. */
  lemma FreshPassResumes(rows: Rows, cfg: Config, c: Conditions, eventType: string)
    requires LastPage(c.freshWritten, eventType).Some?
    ensures ResumesAt(FreshPass(rows, cfg, c).0, eventType,
                      Later(RowOf(rows, eventType), c.freshAt - cfg.freshDays * 86400))
  {
    var start := c.freshAt - cfg.freshDays * DAY;
    WrittenRow(rows, rows, start, c.freshWritten, eventType);
    RowOfSetAll(WriteStates(rows, rows, start, c.freshWritten), start, eventType);
    hide RowOf, SetAll, WriteStates, Cursor;
  }

  /** The backfill pass does the same from the start of its chunk, and touches no other type's point. */
  lemma BackfillPassResumes(rows: Rows, until: int, cfg: Config, c: Conditions, eventType: string)
    requires RowOf(rows, eventType).Some?
    ensures var (after, request) := BackfillPass(rows, Some(until), cfg, c);
            ResumesAt(after, eventType,
                      if request.Some? && LastPage(c.backfillWritten, eventType).Some?
                      then Later(RowOf(rows, eventType), request.value.start)
                      else RowOf(rows, eventType).value.since)
  {
    var start := ChunkStart(until, cfg.chunkDays, Target(c.backfillAt));
    WrittenRow(rows, rows, start, c.backfillWritten, eventType);
    RowOfSetAll(WriteStates(rows, rows, start, c.backfillWritten), start, eventType);
    hide RowOf, SetAll, WriteStates, ChunkStart;
  }

  /** A repo pushed after its last event is imported: its fresh pass runs, and reopens nothing older than freshDays. */
  lemma PushedRepoImported(rows: Rows, cfg: Config, c: Conditions, eventType: string)
    requires c.pushedAt.Some? && c.maxEventTime.Some? && c.pushedAt.value > c.maxEventTime.value
    requires !c.stopBeforeFresh && LastPage(c.freshWritten, eventType).Some?
    ensures !Skips(rows, c)
    ensures var after := RowOf(Import(rows, cfg, c).0, eventType);
            after.Some? && after.value.since >= c.freshAt - cfg.freshDays * 86400
  {
    SkipsIff(rows, c);
    FreshPassResumes(rows, cfg, c, eventType);
    hide Skips, FreshPass, BackfillPass, RowOf;
    var (imported, until) := FreshPass(rows, cfg, c);
    BackfillPassResumes(imported, until, cfg, c, eventType);
  }

  // ---- The cursor through the row operations ----

  lemma {:induction false} CursorOfSetAll(rows: Rows, until: int)
    ensures Cursor(SetAll(rows, until)) == if rows == [] then None else Some(until)
  {
    if rows != [] {
      var n := |rows| - 1;
      CursorOfSetAll(rows[..n], until);
      assert SetAll(rows, until)[..n] == SetAll(rows[..n], until);
    }
  }

  lemma {:induction false} CursorOfUpdate(rows: Rows, i: nat, row: StateRow)
    requires i < |rows| && row.backfillUntil == rows[i].backfillUntil
    ensures Cursor(rows[i := row]) == Cursor(rows)
  {
    var n := |rows| - 1;
    if i < n {
      CursorOfUpdate(rows[..n], i, row);
      assert rows[i := row][..n] == rows[..n][i := row];
    } else {
      assert rows[i := row][..n] == rows[..n];
    }
  }

  /** rows differs from loaded only in pages, resume points and rows without a cursor. */
  ghost predicate SameCursors(rows: Rows, loaded: Rows) {
    && |loaded| <= |rows|
    && (forall i :: 0 <= i < |loaded| ==>
          rows[i].eventType == loaded[i].eventType && rows[i].backfillUntil == loaded[i].backfillUntil)
    && (forall i :: |loaded| <= i < |rows| ==> rows[i].backfillUntil.None?)
    && Cursor(rows) == Cursor(loaded)
  }

  lemma FoundAgain(rows: Rows, loaded: Rows, eventType: string)
    requires SameCursors(rows, loaded)
    ensures FindRow(loaded, eventType) < |loaded| ==> FindRow(rows, eventType) == FindRow(loaded, eventType)
    ensures FindRow(loaded, eventType) == |loaded| ==> FindRow(rows, eventType) >= |loaded|
  {
  }

  lemma {:induction false} ImportKeepsCursors(rows: Rows, windowStart: int, written: seq<Written>)
    ensures SameCursors(WriteStates(rows, rows, windowStart, written), rows)
  {
    if written != [] {
      var n := |written| - 1;
      ImportKeepsCursors(rows, windowStart, written[..n]);
      var before := WriteStates(rows, rows, windowStart, written[..n]);
      var row := Loaded(rows, written[n].eventType, windowStart).(page := written[n].page);
      FoundAgain(before, rows, row.eventType);
      var i := FindRow(before, row.eventType);
      if i < |before| {
        CursorOfUpdate(before, i, row);
      } else {
        assert (before + [row])[..|before|] == before;
      }
    }
  }

  /** Importing events, in whatever window, leaves the cursor where it is. */
  lemma ImportKeepsCursor(rows: Rows, windowStart: int, written: seq<Written>)
    ensures Cursor(WriteStates(rows, rows, windowStart, written)) == Cursor(rows)
    ensures rows != [] ==> WriteStates(rows, rows, windowStart, written) != []
  {
    ImportKeepsCursors(rows, windowStart, written);
  }
}
