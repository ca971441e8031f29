// The worker pool of an import task: every schedule of the dispatcher and the
// workers, with cancellation at any moment.
module WorkerPool {

  /** How importing a repo ends. */
  datatype Outcome = Skipped | Failed | Succeeded

  /** Where a worker is; i is the repo it holds. */
  datatype Worker =
    | Waiting
    | Received(i: nat)
    | Importing(i: nat)
    | Counting(i: nat, outcome: Outcome)
    | Gone

  datatype Result = Result(i: nat, outcome: Outcome)

  /**
   * next is the repo to send; the counters are the atomic ones; done lists what
   * was counted and dropped what a worker received too late to import.
   */
  datatype State = State(
    next: nat, closed: bool, cancelled: bool, workers: seq<Worker>,
    total: nat, errors: nat, skipped: nat, done: seq<Result>, dropped: seq<nat>)

  // ---- Steps of a run over n repos ----

  ghost predicate Init(s: State, numWorkers: nat) {
    && s.next == 0 && !s.closed && s.total == s.errors == s.skipped == 0 && s.done == [] && s.dropped == []
    && |s.workers| == numWorkers && forall w :: 0 <= w < numWorkers ==> s.workers[w] == Waiting
  }

  ghost predicate Cancel(s: State, s': State) {
    !s.cancelled && s' == s.(cancelled := true)
  }

  /** The channel is unbuffered: the dispatcher hands a repo to a worker that waits. */
  ghost predicate Send(s: State, s': State, n: nat, w: nat) {
    && !s.closed && s.next < n && w < |s.workers| && s.workers[w] == Waiting
    && s' == s.(next := s.next + 1, workers := s.workers[w := Received(s.next)])
  }

  /** The dispatcher closes the channel when all is sent or, after a cancel, earlier. */
  ghost predicate Close(s: State, s': State, n: nat) {
    && !s.closed && (s.next >= n || s.cancelled)
    && s' == s.(closed := true)
  }

  ghost predicate Leave(s: State, s': State, w: nat) {
    && w < |s.workers| && s.workers[w] == Waiting && s.closed
    && s' == s.(workers := s.workers[w := Gone])
  }

  /** A worker looks at the context before it imports what it received. */
  ghost predicate Check(s: State, s': State, w: nat) {
    && w < |s.workers| && s.workers[w].Received?
    && var i := s.workers[w].i;
       s' == if s.cancelled then s.(workers := s.workers[w := Gone], dropped := s.dropped + [i])
             else s.(workers := s.workers[w := Importing(i)])
  }

  /** The import ends, in whatever way, and its outcome is counted. */
  ghost predicate Import(s: State, s': State, w: nat, outcome: Outcome) {
    && w < |s.workers| && s.workers[w].Importing?
    && s' == s.(workers := s.workers[w := Counting(s.workers[w].i, outcome)],
                errors := s.errors + (if outcome.Failed? then 1 else 0),
                skipped := s.skipped + (if outcome.Skipped? then 1 else 0))
  }

  ghost predicate Count(s: State, s': State, w: nat) {
    && w < |s.workers| && s.workers[w].Counting?
    && s' == s.(workers := s.workers[w := Waiting], total := s.total + 1,
                done := s.done + [Result(s.workers[w].i, s.workers[w].outcome)])
  }

  ghost predicate WorkerStep(s: State, s': State, n: nat, w: nat) {
    || Send(s, s', n, w) || Leave(s, s', w) || Check(s, s', w) || Count(s, s', w)
    || exists outcome :: Import(s, s', w, outcome)
  }

  /** A step of the pool itself. */
  ghost predicate PoolStep(s: State, s': State, n: nat) {
    Close(s, s', n) || exists w: nat :: WorkerStep(s, s', n, w)
  }

  ghost predicate Next(s: State, s': State, n: nat) {
    Cancel(s, s') || PoolStep(s, s', n)
  }

  /** runWorkers returns: the channel is closed and every worker has left. */
  ghost predicate Finished(s: State) {
    s.closed && forall w :: 0 <= w < |s.workers| ==> s.workers[w] == Gone
  }

  // ---- Counting what is where ----

  function Holds(w: Worker, i: nat): nat {
    if !w.Waiting? && !w.Gone? && w.i == i then 1 else 0
  }

  function Holders(workers: seq<Worker>, i: nat): nat {
    if workers == [] then 0 else Holders(workers[..|workers| - 1], i) + Holds(workers[|workers| - 1], i)
  }

  function DoneTimes(done: seq<Result>, i: nat): nat {
    if done == [] then 0 else DoneTimes(done[..|done| - 1], i) + (if done[|done| - 1].i == i then 1 else 0)
  }

  function DroppedTimes(dropped: seq<nat>, i: nat): nat {
    if dropped == [] then 0 else DroppedTimes(dropped[..|dropped| - 1], i) + (if dropped[|dropped| - 1] == i then 1 else 0)
  }

  function DoneWith(done: seq<Result>, outcome: Outcome): nat {
    if done == [] then 0
    else DoneWith(done[..|done| - 1], outcome) + (if done[|done| - 1].outcome == outcome then 1 else 0)
  }

  function IsCounting(w: Worker, outcome: Outcome): nat {
    if w.Counting? && w.outcome == outcome then 1 else 0
  }

  function CountingWith(workers: seq<Worker>, outcome: Outcome): nat {
    if workers == [] then 0
    else CountingWith(workers[..|workers| - 1], outcome) + IsCounting(workers[|workers| - 1], outcome)
  }

  lemma {:induction false} HoldersUpdate(workers: seq<Worker>, w: nat, x: Worker, i: nat)
    requires w < |workers|
    ensures Holders(workers[w := x], i) + Holds(workers[w], i) == Holders(workers, i) + Holds(x, i)
  {
    var n := |workers| - 1;
    if w < n {
      HoldersUpdate(workers[..n], w, x, i);
      assert workers[w := x][..n] == workers[..n][w := x];
    } else {
      assert workers[w := x][..n] == workers[..n];
    }
  }

  lemma {:induction false} CountingUpdate(workers: seq<Worker>, w: nat, x: Worker, outcome: Outcome)
    requires w < |workers|
    ensures CountingWith(workers[w := x], outcome) + IsCounting(workers[w], outcome)
         == CountingWith(workers, outcome) + IsCounting(x, outcome)
  {
    var n := |workers| - 1;
    if w < n {
      CountingUpdate(workers[..n], w, x, outcome);
      assert workers[w := x][..n] == workers[..n][w := x];
    } else {
      assert workers[w := x][..n] == workers[..n];
    }
  }

  // ---- Invariants ----

  /** Each repo sent so far is with one worker, counted once or dropped once; no other is anywhere. */
  ghost predicate EachInOnePlace(s: State) {
    forall i: nat :: Holders(s.workers, i) + DoneTimes(s.done, i) + DroppedTimes(s.dropped, i)
                  == if i < s.next then 1 else 0
  }

  ghost predicate CountersAgree(s: State) {
    && s.total == |s.done|
    && s.errors == DoneWith(s.done, Failed) + CountingWith(s.workers, Failed)
    && s.skipped == DoneWith(s.done, Skipped) + CountingWith(s.workers, Skipped)
  }

  /** Nothing is cut short unless the run was cancelled. */
  ghost predicate CutShortOnlyByCancel(s: State, n: nat) {
    && s.next <= n
    && (s.dropped != [] ==> s.cancelled)
    && (s.closed && s.next < n ==> s.cancelled)
    && (forall w :: 0 <= w < |s.workers| && s.workers[w] == Gone ==> s.closed || s.cancelled)
  }

  ghost predicate Inv(s: State, n: nat) {
    EachInOnePlace(s) && CountersAgree(s) && CutShortOnlyByCancel(s, n)
  }

  lemma SendKeeps(s: State, s': State, n: nat, w: nat)
    requires Inv(s, n) && Send(s, s', n, w)
    ensures Inv(s', n)
  {
    forall i: nat
      ensures Holders(s'.workers, i) == Holders(s.workers, i) + (if i == s.next then 1 else 0)
    {
      HoldersUpdate(s.workers, w, s'.workers[w], i);
    }
    CountingUpdate(s.workers, w, s'.workers[w], Failed);
    CountingUpdate(s.workers, w, s'.workers[w], Skipped);
  }

  lemma LeaveKeeps(s: State, s': State, n: nat, w: nat)
    requires Inv(s, n) && Leave(s, s', w)
    ensures Inv(s', n)
  {
    forall i: nat
      ensures Holders(s'.workers, i) == Holders(s.workers, i)
    {
      HoldersUpdate(s.workers, w, Gone, i);
    }
    CountingUpdate(s.workers, w, Gone, Failed);
    CountingUpdate(s.workers, w, Gone, Skipped);
  }

  lemma CheckKeeps(s: State, s': State, n: nat, w: nat)
    requires Inv(s, n) && Check(s, s', w)
    ensures Inv(s', n)
  {
    forall i: nat
      ensures Holders(s'.workers, i) + DroppedTimes(s'.dropped, i) == Holders(s.workers, i) + DroppedTimes(s.dropped, i)
    {
      HoldersUpdate(s.workers, w, s'.workers[w], i);
      assert s.cancelled ==> s'.dropped[..|s'.dropped| - 1] == s.dropped;
    }
    CountingUpdate(s.workers, w, s'.workers[w], Failed);
    CountingUpdate(s.workers, w, s'.workers[w], Skipped);
  }

  lemma ImportKeeps(s: State, s': State, n: nat, w: nat, outcome: Outcome)
    requires Inv(s, n) && Import(s, s', w, outcome)
    ensures Inv(s', n)
  {
    forall i: nat
      ensures Holders(s'.workers, i) == Holders(s.workers, i)
    {
      HoldersUpdate(s.workers, w, s'.workers[w], i);
    }
    CountingUpdate(s.workers, w, s'.workers[w], Failed);
    CountingUpdate(s.workers, w, s'.workers[w], Skipped);
  }

  lemma CountKeeps(s: State, s': State, n: nat, w: nat)
    requires Inv(s, n) && Count(s, s', w)
    ensures Inv(s', n)
  {
    assert s'.done[..|s'.done| - 1] == s.done;
    forall i: nat
      ensures Holders(s'.workers, i) + DoneTimes(s'.done, i) == Holders(s.workers, i) + DoneTimes(s.done, i)
    {
      HoldersUpdate(s.workers, w, Waiting, i);
    }
    CountingUpdate(s.workers, w, Waiting, Failed);
    CountingUpdate(s.workers, w, Waiting, Skipped);
  }

  lemma StepKeepsInv(s: State, s': State, n: nat)
    requires Inv(s, n) && Next(s, s', n)
    ensures Inv(s', n)
  {
    if !Cancel(s, s') && !Close(s, s', n) {
      var w: nat :| WorkerStep(s, s', n, w);
      if Send(s, s', n, w) {
        SendKeeps(s, s', n, w);
      } else if Leave(s, s', w) {
        LeaveKeeps(s, s', n, w);
      } else if Check(s, s', w) {
        CheckKeeps(s, s', n, w);
      } else if Count(s, s', w) {
        CountKeeps(s, s', n, w);
      } else {
        var outcome :| Import(s, s', w, outcome);
        ImportKeeps(s, s', n, w, outcome);
      }
    }
  }

  lemma {:induction false} NobodyHolds(workers: seq<Worker>, i: nat)
    requires forall w :: 0 <= w < |workers| ==> workers[w].Waiting? || workers[w].Gone?
    ensures Holders(workers, i) == 0
    ensures CountingWith(workers, Failed) == 0 && CountingWith(workers, Skipped) == 0
  {
    if workers != [] {
      NobodyHolds(workers[..|workers| - 1], i);
    }
  }

  ghost predicate IsRun(run: seq<State>, n: nat, numWorkers: nat) {
    && |run| > 0 && Init(run[0], numWorkers)
    && forall k :: 0 <= k < |run| - 1 ==> Next(run[k], run[k + 1], n)
  }

  lemma {:induction false} RunKeepsInv(run: seq<State>, n: nat, numWorkers: nat)
    requires IsRun(run, n, numWorkers)
    ensures Inv(run[|run| - 1], n) && |run[|run| - 1].workers| == numWorkers
  {
    var k := |run| - 1;
    if k == 0 {
      forall i: nat
        ensures Holders(run[0].workers, i) == 0
      {
        NobodyHolds(run[0].workers, i);
      }
      NobodyHolds(run[0].workers, 0);
    } else {
      RunKeepsInv(run[..k], n, numWorkers);
      assert Next(run[k - 1], run[k], n);
      StepKeepsInv(run[k - 1], run[k], n);
    }
  }

  // ---- What every schedule guarantees ----

  lemma {:induction false} OutcomesAddUp(done: seq<Result>)
    ensures |done| == DoneWith(done, Failed) + DoneWith(done, Skipped) + DoneWith(done, Succeeded)
  {
    if done != [] {
      OutcomesAddUp(done[..|done| - 1]);
    }
  }

  /** In every reachable state a repo was counted at most once and is held by at most one worker, never both. */
  lemma AtMostOnce(run: seq<State>, n: nat, numWorkers: nat, i: nat)
    requires IsRun(run, n, numWorkers)
    ensures var s := run[|run| - 1]; Holders(s.workers, i) + DoneTimes(s.done, i) <= 1
    ensures var s := run[|run| - 1]; Holders(s.workers, i) + DoneTimes(s.done, i) == 1 ==> i < n
  {
    RunKeepsInv(run, n, numWorkers);
  }

  /**
   * When the run is over the counters add up, and unless it was cancelled every
   * repo was imported exactly once.
   */
  lemma FinishedRunComplete(run: seq<State>, n: nat, numWorkers: nat)
    requires IsRun(run, n, numWorkers) && Finished(run[|run| - 1])
    ensures var s := run[|run| - 1];
            && s.total == s.errors + s.skipped + DoneWith(s.done, Succeeded)
            && s.errors == DoneWith(s.done, Failed) && s.skipped == DoneWith(s.done, Skipped)
            && (!s.cancelled ==> forall i: nat :: DoneTimes(s.done, i) == if i < n then 1 else 0)
            && (forall i: nat :: i < s.next ==> DoneTimes(s.done, i) + DroppedTimes(s.dropped, i) == 1)
  {
    RunKeepsInv(run, n, numWorkers);
    var s := run[|run| - 1];
    OutcomesAddUp(s.done);
    NobodyHolds(s.workers, 0);
    forall i: nat
      ensures Holders(s.workers, i) == 0
    {
      NobodyHolds(s.workers, i);
    }
  }

  // ---- What cancelling and closing stop ----

  function IsBusy(w: Worker): nat {
    if w.Importing? || w.Counting? then 1 else 0
  }

  /** How many imports are under way. */
  function Busy(workers: seq<Worker>): nat {
    if workers == [] then 0 else Busy(workers[..|workers| - 1]) + IsBusy(workers[|workers| - 1])
  }

  lemma {:induction false} BusyUpdate(workers: seq<Worker>, w: nat, x: Worker)
    requires w < |workers|
    ensures Busy(workers[w := x]) + IsBusy(workers[w]) == Busy(workers) + IsBusy(x)
  {
    var n := |workers| - 1;
    if w < n {
      BusyUpdate(workers[..n], w, x);
      assert workers[w := x][..n] == workers[..n][w := x];
    } else {
      assert workers[w := x][..n] == workers[..n];
    }
  }

  /** After a cancel no import begins, after the close nothing is sent. */
  lemma StepAfterCancel(s: State, s': State, n: nat)
    requires Next(s, s', n)
    ensures s.closed ==> s'.closed && s'.next == s.next
    ensures s.cancelled ==> s'.cancelled && |s'.done| + Busy(s'.workers) == |s.done| + Busy(s.workers)
  {
    if !Cancel(s, s') && !Close(s, s', n) {
      var w: nat :| WorkerStep(s, s', n, w);
      BusyUpdate(s.workers, w, s'.workers[w]);
      assert s'.workers == s.workers[w := s'.workers[w]];
    }
  }

  lemma {:induction false} RunAfterCancel(run: seq<State>, n: nat, numWorkers: nat, k: nat)
    requires IsRun(run, n, numWorkers) && k < |run|
    ensures var s, last := run[k], run[|run| - 1];
            && (s.closed ==> last.closed && last.next == s.next)
            && (s.cancelled ==> last.cancelled && |last.done| + Busy(last.workers) == |s.done| + Busy(s.workers))
  {
    var l := |run| - 1;
    if k < l {
      RunAfterCancel(run[..l], n, numWorkers, k);
      assert Next(run[l - 1], run[l], n);
      StepAfterCancel(run[l - 1], run[l], n);
    }
  }

  lemma {:induction false} NobodyBusy(workers: seq<Worker>)
    requires forall w :: 0 <= w < |workers| ==> workers[w] == Gone
    ensures Busy(workers) == 0
  {
    if workers != [] {
      NobodyBusy(workers[..|workers| - 1]);
    }
  }

  /**
   * Whenever a run is cancelled, exactly the imports then under way are still
   * finished and counted; and from the close on no further repo is sent.
   */
  lemma CancelLetsRunningImportsEnd(run: seq<State>, n: nat, numWorkers: nat, k: nat)
    requires IsRun(run, n, numWorkers) && k < |run| && Finished(run[|run| - 1])
    ensures run[k].cancelled ==> run[|run| - 1].total == run[k].total + Busy(run[k].workers)
    ensures run[k].closed ==> run[|run| - 1].next == run[k].next
  {
    RunAfterCancel(run, n, numWorkers, k);
    NobodyBusy(run[|run| - 1].workers);
    RunKeepsInv(run, n, numWorkers);
    RunKeepsInv(run[..k + 1], n, numWorkers);
  }

  // ---- Every schedule ends ----

  function Effort(w: Worker): nat {
    match w
    case Gone => 0
    case Waiting => 1
    case Counting(_, _) => 2
    case Importing(_) => 3
    case Received(_) => 4
  }

  function TotalEffort(workers: seq<Worker>): nat {
    if workers == [] then 0 else TotalEffort(workers[..|workers| - 1]) + Effort(workers[|workers| - 1])
  }

  lemma {:induction false} EffortUpdate(workers: seq<Worker>, w: nat, x: Worker)
    requires w < |workers|
    ensures TotalEffort(workers[w := x]) + Effort(workers[w]) == TotalEffort(workers) + Effort(x)
  {
    var n := |workers| - 1;
    if w < n {
      EffortUpdate(workers[..n], w, x);
      assert workers[w := x][..n] == workers[..n][w := x];
    } else {
      assert workers[w := x][..n] == workers[..n];
    }
  }

  /** Steps a run over n repos can still take from s. */
  function StepsLeft(s: State, n: nat): nat {
    4 * (if s.next < n then n - s.next else 0) + TotalEffort(s.workers)
    + (if s.closed then 0 else 1) + (if s.cancelled then 0 else 1)
  }

  lemma EachStepUsesOne(s: State, s': State, n: nat)
    requires Next(s, s', n)
    ensures StepsLeft(s', n) < StepsLeft(s, n)
  {
    if !Cancel(s, s') && !Close(s, s', n) {
      var w: nat :| WorkerStep(s, s', n, w);
      EffortUpdate(s.workers, w, s'.workers[w]);
      assert s'.workers == s.workers[w := s'.workers[w]];
    }
  }

  lemma {:induction false} WaitingEffort(workers: seq<Worker>)
    requires forall w :: 0 <= w < |workers| ==> workers[w] == Waiting
    ensures TotalEffort(workers) == |workers|
  {
    if workers != [] {
      WaitingEffort(workers[..|workers| - 1]);
    }
  }

  /** No schedule is longer than four steps a repo and one a worker, and two for closing and cancelling. */
  lemma {:induction false} RunsAreShort(run: seq<State>, n: nat, numWorkers: nat)
    requires IsRun(run, n, numWorkers)
    ensures |run| - 1 + StepsLeft(run[|run| - 1], n) <= 4 * n + numWorkers + 2
  {
    var k := |run| - 1;
    if k == 0 {
      WaitingEffort(run[0].workers);
    } else {
      RunsAreShort(run[..k], n, numWorkers);
      assert Next(run[k - 1], run[k], n);
      EachStepUsesOne(run[k - 1], run[k], n);
    }
  }

  ghost predicate CanStep(s: State, n: nat) {
    exists s' :: PoolStep(s, s', n)
  }

  lemma WorkerCanStep(s: State, n: nat, w: nat)
    requires w < |s.workers| && !s.workers[w].Gone?
    requires s.workers[w].Waiting? ==> s.closed || s.next < n
    ensures CanStep(s, n)
  {
    var s': State;
    match s.workers[w] {
      case Waiting =>
        if s.closed {
          s' := s.(workers := s.workers[w := Gone]);
          assert Leave(s, s', w);
        } else {
          s' := s.(next := s.next + 1, workers := s.workers[w := Received(s.next)]);
          assert Send(s, s', n, w);
        }
      case Received(i) =>
        s' := if s.cancelled then s.(workers := s.workers[w := Gone], dropped := s.dropped + [i])
              else s.(workers := s.workers[w := Importing(i)]);
        assert Check(s, s', w);
      case Importing(i) =>
        s' := s.(workers := s.workers[w := Counting(i, Succeeded)]);
        assert Import(s, s', w, Succeeded);
      case Counting(i, outcome) =>
        s' := s.(workers := s.workers[w := Waiting], total := s.total + 1, done := s.done + [Result(i, outcome)]);
        assert Count(s, s', w);
    }
    assert WorkerStep(s, s', n, w);
    assert PoolStep(s, s', n);
  }

  /** A run that is not over can go on by itself exactly when it has a worker, was cancelled or has nothing to send. */
  lemma NeverStuckIff(run: seq<State>, n: nat, numWorkers: nat)
    requires IsRun(run, n, numWorkers) && !Finished(run[|run| - 1])
    ensures var s := run[|run| - 1];
            CanStep(s, n) <==> numWorkers >= 1 || s.cancelled || s.next >= n || s.closed
  {
    RunKeepsInv(run, n, numWorkers);
    var s := run[|run| - 1];
    if w: nat :| w < |s.workers| && !s.workers[w].Gone? && (s.workers[w].Waiting? ==> s.closed || s.next < n) {
      WorkerCanStep(s, n, w);
    } else if !s.closed && (s.next >= n || s.cancelled) {
      var s' := s.(closed := true);
      assert PoolStep(s, s', n);
    }
  }
}
