// Numbered schema migrations: runs that may stop between two migrations, over
// directories that grow from release to release.
module Migrations {
  import opened Decimals
  import opened Options
  import Lexical

  datatype Entry = Entry(name: string, isDir: bool, content: string)

  datatype Migration = Migration(version: int, name: string, content: string)

  /** rows: the version table, in insertion order; history: every migration script executed. */
  datatype Schema = Schema(rows: seq<int>, history: seq<Migration>)

  class Database {
    var rows: seq<int>
    var history: seq<Migration>

    constructor ()
      ensures View() == Schema([], [])
    {
      rows, history := [], [];
    }

    function View(): Schema
      reads this
    {
      Schema(rows, history)
    }

    /** One transaction: the script and its version row, or nothing. */
    method ApplyOneMigration(m: Migration, fails: bool) returns (ok: bool)
      modifies this
      ensures ok == !fails
      ensures View() == if fails then old(View()) else Applied(old(View()), m)
      ensures history == if fails then old(history) else old(history) + [m]
      ensures rows == if fails || m.version in old(rows) then old(rows) else old(rows) + [m.version]
    {
      if fails {
        return false;
      }
      history := history + [m];
      if m.version !in rows {
        rows := rows + [m.version];
      }
      return true;
    }

    /** A run that stops when transaction number cut fails, if it gets that far. */
    method ApplyMigrations(entries: seq<Entry>, cut: nat) returns (ok: bool)
      modifies this
      ensures View() == AfterRun(old(View()), Files(ByName(entries)), cut)
      ensures ok <==> |Pending(Files(ByName(entries)), Newest(old(rows)))| <= cut
    {
      hide Files, Pending, AllApplied, Parsed, Newest, ByName, Applied;
      var currentVersion := Newest(rows);
      var sorted := ByName(entries);
      ghost var done := [];
      var count := 0;
      var i := 0;
      NothingPending(currentVersion, View());
      while i < |sorted|
        invariant 0 <= i <= |sorted|
        invariant done == Pending(Files(sorted[..i]), currentVersion)
        invariant count == |done| <= cut
        invariant View() == AllApplied(old(View()), done)
      {
        var entry := sorted[i];
        i := i + 1;
        PendingStep(sorted, i, currentVersion);
        var m := Parsed(entry);
        if m.None? || m.value.version <= currentVersion {
          continue;
        }
        AppliedNext(old(View()), done, m.value);
        ok := ApplyOneMigration(m.value, count == cut);
        if !ok {
          StoppedAt(sorted, i, currentVersion, done, m.value);
          return false;
        }
        done := done + [m.value];
        count := count + 1;
      }
      assert sorted[..i] == sorted;
      assert Upto(done, cut) == done;
      return true;
    }
  }

  // ---- File names ----

  /** What the loop makes of one directory entry: None where it moves on to the next. */
  function Parsed(e: Entry): Option<Migration> {
    if e.isDir then None
    else
      var u := Underscore(e.name);
      if u == |e.name| then None
      else
        match ScanInt(e.name[..u])
        case None => None
        case Some(v) => Some(Migration(v, e.name, e.content))
  }

  /** Where the first underscore is. */
  function Underscore(s: string): (u: nat)
    ensures u <= |s|
    ensures u < |s| ==> s[u] == '_'
    ensures forall k :: 0 <= k < u ==> s[k] != '_'
  {
    if s == "" || s[0] == '_' then 0 else 1 + Underscore(s[1..])
  }

  predicate IsBlank(c: char): (b: bool)
    ensures b <==> (9 <= c as int <= 13 && c as int != 10) || c as int == 32
  {
    c == ' ' || c == '\t' || c == '\r' || c == '\U{000B}' || c == '\U{000C}'
  }

  /** White space before a number is passed over, a line break is an error. */
  function SkipSpace(s: string): Option<string> {
    if s == "" then Some(s)
    else if s[0] == '\n' then None
    else if IsBlank(s[0]) then SkipSpace(s[1..])
    else Some(s)
  }

  /** Go's Sscanf "%d": an optional sign and digits; what follows them is not looked at. */
  function ScanInt(s: string): Option<int> {
    match SkipSpace(s)
    case None => None
    case Some(number) =>
      var signed := number != "" && (number[0] == '-' || number[0] == '+');
      var t := if signed then number[1..] else number;
      var n := DigitsLen(t);
      if n == 0 then None
      else
        var v: int := Value(t[..n]);
        Some(if signed && number[0] == '-' then -v else v)
  }

  function Files(entries: seq<Entry>): seq<Migration> {
    if entries == [] then []
    else
      var m := Parsed(entries[|entries| - 1]);
      Files(entries[..|entries| - 1]) + (if m.None? then [] else [m.value])
  }

  predicate SortedByName(s: seq<Entry>) {
    forall i, j :: 0 <= i < j < |s| ==> Lexical.Compare(s[i].name, s[j].name) <= 0
  }

  function ByName(entries: seq<Entry>): (r: seq<Entry>)
    ensures |r| == |entries|
  {
    if entries == [] then []
    else InsertByName(ByName(entries[..|entries| - 1]), entries[|entries| - 1])
  }

  function InsertByName(s: seq<Entry>, e: Entry): (r: seq<Entry>)
    ensures |r| == |s| + 1
  {
    if s == [] || Lexical.Compare(s[|s| - 1].name, e.name) <= 0 then s + [e]
    else InsertByName(s[..|s| - 1], e) + [s[|s| - 1]]
  }

  lemma {:induction false} SpaceSkipped(blanks: string, rest: string)
    requires forall i :: 0 <= i < |blanks| ==> IsBlank(blanks[i])
    requires rest != "" ==> !IsBlank(rest[0]) && rest[0] != '\n'
    ensures SkipSpace(blanks + rest) == Some(rest)
  {
    if blanks == "" {
      assert blanks + rest == rest;
    } else {
      assert (blanks + rest)[1..] == blanks[1..] + rest;
      SpaceSkipped(blanks[1..], rest);
    }
  }

  lemma UnderscoreEnds(head: string, rest: string)
    requires '_' !in head
    ensures Underscore(head + ("_" + rest)) == |head| && (head + ("_" + rest))[..|head|] == head
  {
    var s := head + ("_" + rest);
    assert forall k :: 0 <= k < |head| ==> s[k] == head[k] && head[k] in head;
    assert s[|head|] == '_';
  }

  /** What stands before the first underscore: white space, a sign, digits, and something that is not looked at. */
  ghost predicate Numbered(head: string, blanks: string, sign: string, digits: string, tail: string) {
    && head == blanks + (sign + (digits + tail)) && '_' !in head
    && (forall i :: 0 <= i < |blanks| ==> IsBlank(blanks[i]))
    && (sign == "" || sign == "+" || sign == "-")
    && digits != "" && (forall i :: 0 <= i < |digits| ==> IsDigit(digits[i]))
    && (tail == "" || !IsDigit(tail[0]))
  }

  /** A file with a numbered name is a migration of that number. */
  lemma NumberedFileParsed(e: Entry, head: string, blanks: string, sign: string, digits: string, tail: string, rest: string)
    requires !e.isDir && e.name == head + ("_" + rest) && Numbered(head, blanks, sign, digits, tail)
    ensures Parsed(e) == Some(Migration(if sign == "-" then -(Value(digits) as int) else Value(digits), e.name, e.content))
  {
    UnderscoreEnds(head, rest);
    var number := sign + (digits + tail);
    assert IsDigit(digits[0]);
    assert number[0] == if sign == "" then digits[0] else sign[0];
    SpaceSkipped(blanks, number);
    assert sign != "" ==> number[1..] == digits + tail;
    assert sign == "" ==> number == digits + tail;
    assert (digits + tail)[0] == digits[0];
    DigitsEnd(digits, tail);
  }

  /** What no number starts with. */
  predicate StartsNoNumber(c: char) {
    !IsBlank(c) && !IsDigit(c) && c != '+' && c != '-'
  }

  /** Directories, names without an underscore and names that start with no number are passed over. */
  lemma OthersPassedOver(e: Entry)
    requires e.isDir || '_' !in e.name || StartsNoNumber(e.name[0])
    ensures Parsed(e) == None
  {
    var u := Underscore(e.name);
    if u < |e.name| {
      assert e.name[u] in e.name;
    }
  }

  // ---- Runs ----

  /** COALESCE(MAX(version), 0) */
  function Newest(rows: seq<int>): int {
    if rows == [] then 0
    else if |rows| == 1 then rows[0]
    else
      var m, last := Newest(rows[..|rows| - 1]), rows[|rows| - 1];
      if m < last then last else m
  }

  function Applied(s: Schema, m: Migration): Schema {
    Schema(if m.version in s.rows then s.rows else s.rows + [m.version], s.history + [m])
  }

  function AllApplied(s: Schema, ms: seq<Migration>): Schema {
    if ms == [] then s else Applied(AllApplied(s, ms[..|ms| - 1]), ms[|ms| - 1])
  }

  function Pending(files: seq<Migration>, current: int): (r: seq<Migration>)
    ensures |r| <= |files|
  {
    if files == [] then []
    else
      var last := files[|files| - 1];
      Pending(files[..|files| - 1], current) + (if last.version <= current then [] else [last])
  }

  function Upto<T>(s: seq<T>, n: nat): seq<T> {
    if n <= |s| then s[..n] else s
  }

  function AfterRun(s: Schema, files: seq<Migration>, cut: nat): Schema {
    AllApplied(s, Upto(Pending(files, Newest(s.rows)), cut))
  }

  lemma FilesTo(entries: seq<Entry>, i: nat)
    requires 0 < i <= |entries|
    ensures var m := Parsed(entries[i - 1]);
            Files(entries[..i]) == Files(entries[..i - 1]) + (if m.None? then [] else [m.value])
  {
    assert entries[..i][..i - 1] == entries[..i - 1];
  }

  /** One more directory entry adds its own migration, or nothing, to what is pending. */
  lemma PendingStep(entries: seq<Entry>, i: nat, current: int)
    requires 0 < i <= |entries|
    ensures var m := Parsed(entries[i - 1]);
            Pending(Files(entries[..i]), current) == Pending(Files(entries[..i - 1]), current)
            + (if m.None? || m.value.version <= current then [] else [m.value])
  {
    FilesTo(entries, i);
    var before := Files(entries[..i - 1]);
    var m := Parsed(entries[i - 1]);
    if m.Some? {
      assert (before + [m.value])[..|before|] == before;
    } else {
      assert before + [] == before;
    }
  }

  lemma NothingPending(current: int, s: Schema)
    ensures Pending(Files([]), current) == [] && AllApplied(s, []) == s
  {
  }

  lemma AppliedNext(s: Schema, ms: seq<Migration>, m: Migration)
    ensures AllApplied(s, ms + [m]) == Applied(AllApplied(s, ms), m)
  {
    assert (ms + [m])[..|ms|] == ms;
  }

  lemma StillFirst<T>(a: seq<T>, b: seq<T>, x: seq<T>)
    requires a <= b
    ensures a <= b + x
  {
  }

  /** What the first i entries leave pending. */
  function PendingTo(entries: seq<Entry>, i: nat, current: int): seq<Migration>
    requires i <= |entries|
  {
    Pending(Files(entries[..i]), current)
  }

  lemma PendingToNext(entries: seq<Entry>, i: nat, current: int) returns (more: seq<Migration>)
    requires i < |entries|
    ensures PendingTo(entries, i + 1, current) == PendingTo(entries, i, current) + more
  {
    PendingStep(entries, i + 1, current);
    var m := Parsed(entries[i]);
    more := if m.None? || m.value.version <= current then [] else [m.value];
  }

  /** More entries only add to the end of what is pending. */
  lemma {:induction false} PendingGrows(entries: seq<Entry>, i: nat, j: nat, current: int)
    requires i <= j <= |entries|
    ensures PendingTo(entries, i, current) <= PendingTo(entries, j, current)
  {
    hide PendingTo;
    if i < j {
      PendingGrows(entries, i, j - 1, current);
      var more := PendingToNext(entries, j - 1, current);
      StillFirst(PendingTo(entries, i, current), PendingTo(entries, j - 1, current), more);
    }
  }

  /** Where the run stops, what was applied is what a run of this length would apply. */
  lemma StoppedAt(entries: seq<Entry>, i: nat, current: int, done: seq<Migration>, m: Migration)
    requires i <= |entries| && Pending(Files(entries[..i]), current) == done + [m]
    ensures var all := Pending(Files(entries), current);
            |all| > |done| && Upto(all, |done|) == done
  {
    hide Pending, Files;
    PendingGrows(entries, i, |entries|, current);
    assert entries[..|entries|] == entries;
  }

  // ---- Increasing versions ----

  ghost predicate Increasing(files: seq<Migration>) {
    && (forall i :: 0 <= i < |files| ==> files[i].version > 0)
    && (forall i, j :: 0 <= i < j < |files| ==> files[i].version < files[j].version)
  }

  function Versions(files: seq<Migration>): (r: seq<int>)
    ensures |r| == |files|
    ensures forall i :: 0 <= i < |r| ==> r[i] == files[i].version
  {
    if files == [] then [] else Versions(files[..|files| - 1]) + [files[|files| - 1].version]
  }

  /** The first k migrations of files have been applied, in order, and recorded, and nothing else. */
  function Prefix(files: seq<Migration>, k: nat): Schema
    requires k <= |files|
  {
    Schema(Versions(files[..k]), files[..k])
  }

  lemma VersionsSnoc(files: seq<Migration>, k: nat)
    requires k < |files|
    ensures Versions(files[..k + 1]) == Versions(files[..k]) + [files[k].version]
  {
    assert files[..k + 1][..k] == files[..k];
  }

  lemma {:induction false} NewestIsLast(files: seq<Migration>, k: nat)
    requires Increasing(files) && k <= |files|
    ensures Newest(Versions(files[..k])) == if k == 0 then 0 else files[k - 1].version
  {
    if k > 0 {
      NewestIsLast(files, k - 1);
      VersionsSnoc(files, k - 1);
      var v := Versions(files[..k - 1]);
      assert (v + [files[k - 1].version])[..k - 1] == v;
    }
  }

  lemma PendingNext(files: seq<Migration>, j: nat, current: int)
    requires j < |files|
    ensures Pending(files[..j + 1], current)
            == Pending(files[..j], current) + (if files[j].version <= current then [] else [files[j]])
  {
    assert files[..j + 1][..j] == files[..j];
  }

  lemma {:induction false} PendingIsRest(files: seq<Migration>, k: nat, j: nat, current: int)
    requires k <= j <= |files|
    requires forall i :: 0 <= i < k ==> files[i].version <= current
    requires forall i :: k <= i < |files| ==> files[i].version > current
    ensures Pending(files[..j], current) == files[k..j]
  {
    hide Pending;
    if k < j {
      PendingIsRest(files, k, j - 1, current);
      PendingNext(files, j - 1, current);
      assert files[k..j] == files[k..j - 1] + [files[j - 1]];
    } else {
      NonePending(files[..j], current);
    }
  }

  lemma {:induction false} NonePending(files: seq<Migration>, current: int)
    requires forall i :: 0 <= i < |files| ==> files[i].version <= current
    ensures Pending(files, current) == []
  {
    if files != [] {
      NonePending(files[..|files| - 1], current);
    }
  }

  lemma AppliesNext(files: seq<Migration>, j: nat)
    requires Increasing(files) && j < |files|
    ensures Applied(Prefix(files, j), files[j]) == Prefix(files, j + 1)
  {
    VersionsSnoc(files, j);
    assert files[..j + 1] == files[..j] + [files[j]];
    assert files[j].version !in Versions(files[..j]);
  }

  lemma {:induction false} AppliesInOrder(files: seq<Migration>, k: nat, j: nat)
    requires Increasing(files) && k <= j <= |files|
    ensures AllApplied(Prefix(files, k), files[k..j]) == Prefix(files, j)
  {
    hide Increasing, Prefix, Applied;
    if j > k {
      AppliesInOrder(files, k, j - 1);
      assert files[k..j][..j - 1 - k] == files[k..j - 1];
      AppliesNext(files, j - 1);
    } else {
      assert files[k..j] == [];
    }
  }

  function Min(a: nat, b: nat): nat {
    if a <= b then a else b
  }

  /** A run keeps the applied migrations a prefix, and moves it forward by up to cut. */
  lemma RunExtendsPrefix(files: seq<Migration>, k: nat, cut: nat)
    requires Increasing(files) && k <= |files|
    ensures AfterRun(Prefix(files, k), files, cut) == Prefix(files, Min(k + cut, |files|))
  {
    hide Increasing, Newest, Prefix, AllApplied, Pending;
    RestPending(files, k);
    var j := Min(k + cut, |files|);
    AppliesInOrder(files, k, j);
    assert Upto(files[k..], cut) == files[k..j];
  }

  lemma RestPending(files: seq<Migration>, k: nat)
    requires Increasing(files) && k <= |files|
    ensures Pending(files, Newest(Prefix(files, k).rows)) == files[k..]
  {
    hide Newest, Pending;
    NewestIsLast(files, k);
    PendingIsRest(files, k, |files|, if k == 0 then 0 else files[k - 1].version);
    assert files[..|files|] == files && files[k..|files|] == files[k..];
  }

  // ---- Many runs, over directories that grow ----

  /** One run: the migrations its binary carries, and where it is cut off. */
  datatype Run = Run(files: seq<Migration>, cut: nat)

  function AfterRuns(runs: seq<Run>): Schema {
    if runs == [] then Schema([], [])
    else AfterRun(AfterRuns(runs[..|runs| - 1]), runs[|runs| - 1].files, runs[|runs| - 1].cut)
  }

  /** Every run carries a first part of files, and never less than the runs before it. */
  ghost predicate Releases(runs: seq<Run>, files: seq<Migration>) {
    && (forall i :: 0 <= i < |runs| ==> runs[i].files <= files)
    && (forall i, j :: 0 <= i < j < |runs| ==> runs[i].files <= runs[j].files)
  }

  lemma PrefixOfPart(part: seq<Migration>, files: seq<Migration>, k: nat)
    requires part <= files && k <= |part|
    ensures Prefix(part, k) == Prefix(files, k)
  {
    assert part[..k] == files[..k];
  }

  lemma NextRunExtends(files: seq<Migration>, k: nat, run: Run) returns (j: nat)
    requires Increasing(files) && run.files <= files && k <= |run.files|
    ensures j <= |run.files| && AfterRun(Prefix(files, k), run.files, run.cut) == Prefix(files, j)
  {
    var g := run.files;
    assert Increasing(g) by {
      assert forall i :: 0 <= i < |g| ==> g[i] == files[i];
    }
    j := Min(k + run.cut, |g|);
    PrefixOfPart(g, files, k);
    RunExtendsPrefix(g, k, run.cut);
    PrefixOfPart(g, files, j);
  }

  lemma AfterRunsSnoc(runs: seq<Run>)
    requires runs != []
    ensures AfterRuns(runs)
            == AfterRun(AfterRuns(runs[..|runs| - 1]), runs[|runs| - 1].files, runs[|runs| - 1].cut)
  {
  }

  /** At every moment the recorded versions and the scripts executed are a prefix of the list. */
  lemma {:induction false} AlwaysAPrefix(runs: seq<Run>, files: seq<Migration>) returns (k: nat)
    requires Increasing(files) && Releases(runs, files)
    ensures k <= (if runs == [] then 0 else |runs[|runs| - 1].files|) && k <= |files|
    ensures AfterRuns(runs) == Prefix(files, k)
  {
    k := 0;
    if runs != [] {
      var n := |runs| - 1;
      var k0 := AlwaysAPrefix(runs[..n], files);
      assert n > 0 ==> runs[n - 1].files <= runs[n].files;
      hide *;
      k := NextRunExtends(files, k0, runs[n]);
      AfterRunsSnoc(runs);
    }
  }

  /** Whatever runs went before, a run over files that is not cut off leaves each script executed once, in order. */
  ghost predicate ResumesRight(files: seq<Migration>) {
    forall runs :: Releases(runs, files) ==> AfterRun(AfterRuns(runs), files, |files|).history == files
  }

  lemma {:induction false} AppliedCount(s: Schema, ms: seq<Migration>)
    ensures AllApplied(s, ms).history == s.history + ms
    ensures forall v :: v in AllApplied(s, ms).rows <==> v in s.rows || exists i :: 0 <= i < |ms| && ms[i].version == v
  {
    if ms != [] {
      var n := |ms| - 1;
      AppliedCount(s, ms[..n]);
      assert ms == ms[..n] + [ms[n]];
    }
  }

  /** The largest recorded version, or 0 when there is none. */
  lemma {:induction false} NewestIsLargest(rows: seq<int>)
    ensures rows == [] ==> Newest(rows) == 0
    ensures rows != [] ==> Newest(rows) in rows && forall v :: v in rows ==> v <= Newest(rows)
  {
    var n := |rows| - 1;
    if n > 0 {
      NewestIsLargest(rows[..n]);
      assert rows == rows[..n] + [rows[n]];
    }
  }

  lemma {:induction false} PendingSkips(files: seq<Migration>, k: nat, current: int)
    requires k <= |files| && forall j :: 0 <= j < k ==> files[j].version <= current
    ensures |Pending(files, current)| <= |files| - k
  {
    if files != [] {
      PendingSkips(files[..|files| - 1], if k < |files| then k else k - 1, current);
    }
  }

  lemma {:induction false} PendingMisses(files: seq<Migration>, i: nat, current: int)
    requires i < |files| && files[i].version <= current
    ensures |Pending(files, current)| < |files|
  {
    if i < |files| - 1 {
      PendingMisses(files[..|files| - 1], i, current);
    }
  }

  lemma {:induction false} AllPendingAtFirst(files: seq<Migration>)
    requires forall i :: 0 <= i < |files| ==> files[i].version > 0
    ensures Pending(files, 0) == files
  {
    if files != [] {
      AllPendingAtFirst(files[..|files| - 1]);
    }
  }

  lemma RunsAllBefore(files: seq<Migration>, i: nat)
    requires i <= |files| && forall j :: 0 <= j < |files| ==> files[j].version > 0
    ensures AfterRun(Schema([], []), files, i).history == files[..i]
    ensures forall j :: 0 <= j < i ==> files[j].version <= Newest(AfterRun(Schema([], []), files, i).rows)
  {
    AllPendingAtFirst(files);
    AppliedCount(Schema([], []), files[..i]);
    var rows := AfterRun(Schema([], []), files, i).rows;
    forall j | 0 <= j < i ensures files[j].version <= Newest(rows) {
      assert files[..i][j].version in rows;
      NewestIsLargest(rows);
    }
  }

  /** A migration numbered no higher than one before it is lost when a run stops just before it. */
  lemma StopBeforeLower(files: seq<Migration>, i: nat)
    requires 0 < i < |files| && files[i].version <= files[i - 1].version
    requires forall j :: 0 <= j < |files| ==> files[j].version > 0
    ensures AfterRun(AfterRun(Schema([], []), files, i), files, |files|).history != files
  {
    RunsAllBefore(files, i);
    hide AfterRun, Newest, AllApplied;
    var s := AfterRun(Schema([], []), files, i);
    PendingSkips(files, i + 1, Newest(s.rows));
    RunAddsPending(s, files, |files|);
  }

  lemma RunAddsPending(s: Schema, files: seq<Migration>, cut: nat)
    ensures AfterRun(s, files, cut).history == s.history + Upto(Pending(files, Newest(s.rows)), cut)
  {
    AppliedCount(s, Upto(Pending(files, Newest(s.rows)), cut));
  }

  /** Where the versions first fail to rise. */
  lemma {:induction false} FindDrop(files: seq<Migration>) returns (i: nat)
    requires !Increasing(files) && forall j :: 0 <= j < |files| ==> files[j].version > 0
    ensures 0 < i < |files| && files[i].version <= files[i - 1].version
  {
    var n := |files| - 1;
    if files[n].version <= files[n - 1].version {
      i := n;
    } else {
      i := FindDrop(files[..n]);
    }
  }

  /**
   * Migrations survive any cut-offs and any releases, each executed exactly once
   * and in order, exactly when their versions are positive and strictly increasing.
   */
  lemma ResumesRightIff(files: seq<Migration>)
    ensures ResumesRight(files) <==> Increasing(files)
  {
    if Increasing(files) {
      forall runs | Releases(runs, files) ensures AfterRun(AfterRuns(runs), files, |files|).history == files {
        var k := AlwaysAPrefix(runs, files);
        RunExtendsPrefix(files, k, |files|);
        assert files[..|files|] == files;
      }
    } else if i :| 0 <= i < |files| && files[i].version <= 0 {
      var runs: seq<Run> := [];
      PendingMisses(files, i, 0);
      RunAddsPending(AfterRuns(runs), files, |files|);
      assert Releases(runs, files) && AfterRun(AfterRuns(runs), files, |files|).history != files;
    } else {
      var i := FindDrop(files);
      StopBeforeLower(files, i);
      var runs := [Run(files, i)];
      assert runs[..0] == [];
      assert Releases(runs, files) && AfterRuns(runs) == AfterRun(Schema([], []), files, i);
    }
  }

  lemma {:induction false} PendingAreNewer(files: seq<Migration>, current: int)
    ensures forall m :: m in Pending(files, current) ==> m.version > current
  {
    if files != [] {
      PendingAreNewer(files[..|files| - 1], current);
    }
  }

  /** A migration under a number already passed is never executed again, or for a first time, by any later run. */
  lemma LateNumberNeverRuns(s: Schema, files: seq<Migration>, cut: nat, i: nat)
    requires |s.history| <= i < |AfterRun(s, files, cut).history|
    ensures AfterRun(s, files, cut).history[i].version > Newest(s.rows)
  {
    var p := Pending(files, Newest(s.rows));
    PendingAreNewer(files, Newest(s.rows));
    RunAddsPending(s, files, cut);
    assert AfterRun(s, files, cut).history[i] == p[i - |s.history|];
  }

  // ---- Zero-padded file names ----

  lemma {:induction false} InsertedElements(s: seq<Entry>, e: Entry)
    ensures multiset(InsertByName(s, e)) == multiset(s) + multiset{e}
  {
    hide Lexical.Compare;
    if s != [] && Lexical.Compare(s[|s| - 1].name, e.name) > 0 {
      var n := |s| - 1;
      InsertedElements(s[..n], e);
      assert s == s[..n] + [s[n]];
    }
  }

  ghost predicate AllUpTo(s: seq<Entry>, name: string) {
    forall i :: 0 <= i < |s| ==> Lexical.Compare(s[i].name, name) <= 0
  }

  lemma {:induction false} InsertedByName(s: seq<Entry>, e: Entry, name: string)
    requires SortedByName(s)
    ensures SortedByName(InsertByName(s, e))
    ensures AllUpTo(s, name) && Lexical.Compare(e.name, name) <= 0 ==> AllUpTo(InsertByName(s, e), name)
  {
    hide Lexical.Compare;
    if s != [] {
      var n := |s| - 1;
      if Lexical.Compare(s[n].name, e.name) > 0 {
        Lexical.CompareFlips(s[n].name, e.name);
        InsertedByName(s[..n], e, s[n].name);
        InsertedByName(s[..n], e, name);
      } else {
        forall i | 0 <= i < n ensures Lexical.Compare(s[i].name, e.name) <= 0 {
          Lexical.CompareTransitive(s[i].name, s[n].name, e.name);
        }
      }
    }
  }

  lemma {:induction false} ByNameSorts(entries: seq<Entry>)
    ensures SortedByName(ByName(entries)) && multiset(ByName(entries)) == multiset(entries)
  {
    if entries != [] {
      var n := |entries| - 1;
      ByNameSorts(entries[..n]);
      InsertedByName(ByName(entries[..n]), entries[n], "");
      InsertedElements(ByName(entries[..n]), entries[n]);
      assert entries == entries[..n] + [entries[n]];
    }
  }

  /** A file name that starts with exactly w digits and an underscore. */
  ghost predicate Padded(e: Entry, w: nat) {
    && !e.isDir && |e.name| > w && e.name[w] == '_'
    && forall k :: 0 <= k < w ==> IsDigit(e.name[k])
  }

  lemma PaddedVersion(e: Entry, w: nat)
    requires Padded(e, w) && w > 0
    ensures Parsed(e) == Some(Migration(Value(e.name[..w]), e.name, e.content))
  {
    assert Underscore(e.name) == w;
    var p := e.name[..w];
    DigitsEnd(p, "");
    assert p + "" == p;
    assert IsDigit(p[0]);
  }

  lemma {:induction false} PrefixesOrdered(a: string, b: string, s: string, t: string)
    requires |a| == |b|
    ensures Lexical.Compare(a + s, b + t) == if a == b then Lexical.Compare(s, t) else Lexical.Compare(a, b)
  {
    if a == "" {
      assert a + s == s && b + t == t;
    } else {
      assert (a + s)[1..] == a[1..] + s && (b + t)[1..] == b[1..] + t;
      assert a == [a[0]] + a[1..] && b == [b[0]] + b[1..];
      PrefixesOrdered(a[1..], b[1..], s, t);
    }
  }

  lemma {:induction false} DigitsOrdered(a: string, b: string)
    requires |a| == |b| && Lexical.Compare(a, b) < 0
    requires forall k :: 0 <= k < |a| ==> IsDigit(a[k]) && IsDigit(b[k])
    ensures Value(a) < Value(b)
  {
    var n := |a| - 1;
    assert a == a[..n] + a[n..] && b == b[..n] + b[n..];
    PrefixesOrdered(a[..n], b[..n], a[n..], b[n..]);
    assert IsDigit(a[n]) && IsDigit(b[n]);
    if a[..n] != b[..n] {
      DigitsOrdered(a[..n], b[..n]);
    }
  }

  lemma NamesOrderVersions(e: Entry, f: Entry, w: nat)
    requires Padded(e, w) && Padded(f, w) && w > 0
    requires Lexical.Compare(e.name, f.name) <= 0 && Value(e.name[..w]) != Value(f.name[..w])
    ensures Value(e.name[..w]) < Value(f.name[..w])
  {
    assert e.name == e.name[..w] + e.name[w..] && f.name == f.name[..w] + f.name[w..];
    PrefixesOrdered(e.name[..w], f.name[..w], e.name[w..], f.name[w..]);
    DigitsOrdered(e.name[..w], f.name[..w]);
  }

  /** No two directory entries carry the same version. */
  ghost predicate Apart(s: seq<Entry>) {
    forall i, j :: 0 <= i < j < |s| ==> DifferentVersions(s[i], s[j])
  }

  predicate DifferentVersions(e: Entry, f: Entry) {
    Parsed(e).None? || Parsed(f).None? || Parsed(e).value.version != Parsed(f).value.version
  }

  lemma {:induction false} InsertedApart(s: seq<Entry>, e: Entry)
    requires Apart(s) && forall i :: 0 <= i < |s| ==> DifferentVersions(s[i], e)
    ensures Apart(InsertByName(s, e))
  {
    hide DifferentVersions;
    if s != [] && Lexical.Compare(s[|s| - 1].name, e.name) > 0 {
      var n := |s| - 1;
      InsertedApart(s[..n], e);
      InsertedElements(s[..n], e);
      var r := InsertByName(s[..n], e);
      forall i | 0 <= i < |r| ensures DifferentVersions(r[i], s[n]) {
        assert r[i] in multiset(r);
        assert r[i] == e || r[i] in s[..n];
        Symmetric(s[n], e);
      }
    }
  }

  lemma Symmetric(e: Entry, f: Entry)
    ensures DifferentVersions(e, f) == DifferentVersions(f, e)
  {
  }

  lemma {:induction false} SortedApart(entries: seq<Entry>)
    requires Apart(entries)
    ensures Apart(ByName(entries))
  {
    if entries != [] {
      hide DifferentVersions;
      var n := |entries| - 1;
      SortedApart(entries[..n]);
      ByNameSorts(entries[..n]);
      var r := ByName(entries[..n]);
      forall i | 0 <= i < |r| ensures DifferentVersions(r[i], entries[n]) {
        assert r[i] in multiset(r);
        assert r[i] in entries[..n];
      }
      InsertedApart(r, entries[n]);
    }
  }

  /** Every entry is a file padded to w digits with a positive version, or one the loop passes over. */
  ghost predicate WellNamed(s: seq<Entry>, w: nat) {
    forall e :: e in s && Parsed(e).Some? ==> Padded(e, w) && Parsed(e).value.version > 0
  }

  lemma VersionRises(e: Entry, f: Entry, w: nat)
    requires w > 0 && Padded(e, w) && Padded(f, w)
    requires Lexical.Compare(e.name, f.name) <= 0 && DifferentVersions(e, f)
    ensures Parsed(e).Some? && Parsed(f).Some? && Parsed(e).value.version < Parsed(f).value.version
  {
    hide Parsed, Padded;
    PaddedVersion(e, w);
    PaddedVersion(f, w);
    NamesOrderVersions(e, f, w);
  }

  /** The entry a migration was made of. */
  lemma {:induction false} Origin(s: seq<Entry>, k: nat, i: nat) returns (j: nat)
    requires k <= |s| && i < |Files(s[..k])|
    ensures j < k && Parsed(s[j]) == Some(Files(s[..k])[i])
  {
    hide Parsed;
    assert s[..0] == [];
    FilesTo(s, k);
    if i < |Files(s[..k - 1])| {
      j := Origin(s, k - 1, i);
    } else {
      j := k - 1;
    }
  }

  lemma EarlierIsLower(s: seq<Entry>, w: nat, k: nat, i: nat)
    requires w > 0 && k < |s| && SortedByName(s) && Apart(s) && WellNamed(s, w)
    requires Parsed(s[k]).Some? && i < |Files(s[..k])|
    ensures Files(s[..k])[i].version < Parsed(s[k]).value.version
  {
    hide Parsed, Files, DifferentVersions, Padded;
    var j := Origin(s, k, i);
    assert s[j] in s && s[k] in s;
    VersionRises(s[j], s[k], w);
  }

  lemma IncreasingSnoc(files: seq<Migration>, m: Migration)
    requires Increasing(files) && m.version > 0
    requires forall i :: 0 <= i < |files| ==> files[i].version < m.version
    ensures Increasing(files + [m])
  {
  }

  lemma PositiveVersion(s: seq<Entry>, w: nat, i: nat)
    requires WellNamed(s, w) && i < |s| && Parsed(s[i]).Some?
    ensures Parsed(s[i]).value.version > 0
  {
    assert s[i] in s;
  }

  lemma {:induction false} SortedIncrease(s: seq<Entry>, w: nat, k: nat)
    requires w > 0 && k <= |s| && SortedByName(s) && Apart(s) && WellNamed(s, w)
    ensures Increasing(Files(s[..k]))
  {
    if k > 0 {
      hide Files, Parsed, Increasing, SortedByName, Apart, WellNamed;
      SortedIncrease(s, w, k - 1);
      FilesTo(s, k);
      var before, m := Files(s[..k - 1]), Parsed(s[k - 1]);
      assert before + [] == before;
      if m.Some? {
        forall i | 0 <= i < |before| ensures before[i].version < m.value.version {
          EarlierIsLower(s, w, k - 1, i);
        }
        PositiveVersion(s, w, k - 1);
        IncreasingSnoc(before, m.value);
      }
    } else {
      assert s[..0] == [];
    }
  }

  /** Names padded to one width, with distinct positive numbers, survive any cut-offs and releases. */
  lemma PaddedNamesResume(entries: seq<Entry>, w: nat)
    requires w > 0 && WellNamed(entries, w) && Apart(entries)
    ensures ResumesRight(Files(ByName(entries)))
  {
    var s := ByName(entries);
    ByNameSorts(entries);
    SortedApart(entries);
    assert WellNamed(s, w) by {
      forall e | e in s ensures e in entries {
        assert e in multiset(s);
      }
    }
    SortedIncrease(s, w, |s|);
    assert s[..|s|] == s;
    ResumesRightIff(Files(s));
  }

  lemma TwoByName(e: Entry, f: Entry)
    requires Lexical.Compare(e.name, f.name) > 0
    ensures ByName([e, f]) == [f, e]
  {
    hide Lexical.Compare;
    assert [e, f][..1] == [e] && [e][..0] == [] && [] + [e] == [e] && [] + [f] == [f];
    assert ByName([e]) == InsertByName([], e);
    assert InsertByName([e], f) == InsertByName([], f) + [e];
  }

  lemma TwoFiles(e: Entry, f: Entry)
    requires Lexical.Compare(e.name, f.name) > 0 && Parsed(e).Some? && Parsed(f).Some?
    ensures Files(ByName([e, f])) == [Parsed(f).value, Parsed(e).value]
  {
    TwoByName(e, f);
    hide ByName, Parsed;
    assert [f, e][..1] == [f] && [f][..0] == [];
    assert Files([f]) == Files([]) + [Parsed(f).value];
  }

  lemma NineAndTen()
    ensures Value("9") == 9 && Value("10") == 10
  {
    assert "10"[..1] == "1" && "1"[..0] == "" && "9"[..0] == "";
    assert Value("1") == 1;
  }

  /** Without padding the tenth file comes before the ninth, and a run cut off between them loses the ninth. */
  lemma UnpaddedLosesOne(nine: Entry, ten: Entry)
    requires nine == Entry("9_a.sql", false, "") && ten == Entry("10_b.sql", false, "")
    ensures !ResumesRight(Files(ByName([nine, ten])))
  {
    hide Value, ResumesRight, Files, ByName, Parsed;
    assert Lexical.Compare(nine.name, ten.name) == 1;
    PaddedVersion(nine, 1);
    PaddedVersion(ten, 2);
    NineAndTen();
    assert nine.name[..1] == "9" && ten.name[..2] == "10";
    TwoFiles(nine, ten);
    var files := Files(ByName([nine, ten]));
    assert files[0].version == 10 && files[1].version == 9;
    ResumesRightIff(files);
  }
}
