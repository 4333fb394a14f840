/**
  The fixed-size thread pool as a transition system. One step is one critical
  section of one thread: the mutex makes them atomic. Condition variables wake
  the threads they must and may wake any other at any time.
 */
module ThreadPool {
  datatype Task = Task(ctx: nat, fn: nat, arg: nat)

  /** `Ready` workers are about to take the lock at the top of their loop. */
  datatype Worker = Ready | Blocked | Running(task: Task) | Exited

  /** A thread in `pool_wait`. */
  datatype Waiter = Checking | Waiting | Returned

  datatype Phase = Live | Joining | Freed

  datatype Pool = Pool(
    queue: seq<Task>, pending: int, active: int, stop: bool,
    workers: seq<Worker>, waiters: map<nat, Waiter>, phase: Phase,
    // History: what was ever submitted and taken, in order, what has finished,
    // what was freed without running, and how many were submitted before the stop.
    submitted: seq<Task>, started: seq<Task>, finished: multiset<Task>, discarded: seq<Task>, onTime: nat)

  datatype Step =
    | Submit(task: Task, woken: set<nat>)
    | WorkerTop(worker: nat)
    | WorkerDone(worker: nat)
    | WorkerSpurious(worker: nat)
    | WaitCall(thread: nat)
    | WaitCheck(thread: nat)
    | WaitSpurious(thread: nat)
    | DestroyStop
    | DestroyFree

  function Initial(threads: nat): Pool {
    Pool([], 0, 0, false, seq(threads, _ => Ready), map[], Live, [], [], multiset{}, [], 0)
  }

  function Wake(ws: seq<Worker>, woken: set<nat>): (r: seq<Worker>)
    ensures |r| == |ws|
  {
    seq(|ws|, i requires 0 <= i < |ws| => if i in woken && ws[i].Blocked? then Ready else ws[i])
  }

  function WakeAll(ws: seq<Worker>): (r: seq<Worker>)
    ensures |r| == |ws|
  {
    seq(|ws|, i requires 0 <= i < |ws| => if ws[i].Blocked? then Ready else ws[i])
  }

  function WakeWaiters(waiters: map<nat, Waiter>): map<nat, Waiter> {
    map t | t in waiters :: if waiters[t].Waiting? then Checking else waiters[t]
  }

  predicate AnyBlocked(ws: seq<Worker>) {
    exists i :: 0 <= i < |ws| && ws[i].Blocked?
  }

  predicate AnyExited(ws: seq<Worker>) {
    exists i :: 0 <= i < |ws| && ws[i].Exited?
  }

  predicate AllExited(ws: seq<Worker>) {
    forall i :: 0 <= i < |ws| ==> ws[i].Exited?
  }

  /** A signal wakes at least one blocked worker when there is one. */
  predicate SignalOk(ws: seq<Worker>, woken: set<nat>) {
    AnyBlocked(ws) ==> exists i :: i in woken && i < |ws| && ws[i].Blocked?
  }

  /** Nothing may use the pool once it is freed. */
  predicate Enabled(p: Pool, s: Step) {
    p.phase != Freed &&
    match s
    case Submit(_, woken) => SignalOk(p.workers, woken)
    case WorkerTop(i) => i < |p.workers| && p.workers[i].Ready?
    case WorkerDone(i) => i < |p.workers| && p.workers[i].Running?
    case WorkerSpurious(i) => i < |p.workers| && p.workers[i].Blocked?
    case WaitCall(t) => t !in p.waiters || p.waiters[t].Returned?
    case WaitCheck(t) => t in p.waiters && p.waiters[t].Checking?
    case WaitSpurious(t) => t in p.waiters && p.waiters[t].Waiting?
    case DestroyStop => p.phase == Live
    case DestroyFree => p.phase == Joining && AllExited(p.workers)
  }

  /** From taking the lock to blocking, exiting or unlocking with a task. */
  function Top(p: Pool, i: nat): Pool
    requires i < |p.workers|
  {
    if p.queue == [] then p.(workers := p.workers[i := if p.stop then Exited else Blocked])
    else
      p.(queue := p.queue[1..], pending := p.pending - 1, active := p.active + 1,
         workers := p.workers[i := Running(p.queue[0])], started := p.started + [p.queue[0]])
  }

  /** From taking the lock again, when it is done, to unlocking. */
  function Done(p: Pool, i: nat): Pool
    requires i < |p.workers| && p.workers[i].Running?
  {
    var active := p.active - 1;
    p.(active := active, workers := p.workers[i := Ready], finished := p.finished + multiset{p.workers[i].task},
       waiters := if p.pending == 0 && active == 0 then WakeWaiters(p.waiters) else p.waiters)
  }

  function Apply(p: Pool, s: Step): Pool
    requires Enabled(p, s)
  {
    match s
    case Submit(task, woken) =>
      p.(queue := p.queue + [task], pending := p.pending + 1, workers := Wake(p.workers, woken),
         submitted := p.submitted + [task])
    case WorkerTop(i) => Top(p, i)
    case WorkerDone(i) => Done(p, i)
    case WorkerSpurious(i) => p.(workers := p.workers[i := Ready])
    case WaitCall(t) => p.(waiters := p.waiters[t := Checking])
    case WaitCheck(t) => p.(waiters := p.waiters[t := if p.pending + p.active > 0 then Waiting else Returned])
    case WaitSpurious(t) => p.(waiters := p.waiters[t := Checking])
    case DestroyStop => p.(stop := true, workers := WakeAll(p.workers), phase := Joining, onTime := |p.submitted|)
    case DestroyFree => p.(queue := [], discarded := p.queue, phase := Freed)
  }

  // Counting workers.

  function RunningTasks(ws: seq<Worker>): multiset<Task> {
    if ws == [] then multiset{}
    else
      var w, ts := ws[|ws| - 1], RunningTasks(ws[..|ws| - 1]);
      if w.Running? then ts + multiset{w.task} else ts
  }

  function CountReady(ws: seq<Worker>): nat {
    if ws == [] then 0
    else CountReady(ws[..|ws| - 1]) + if ws[|ws| - 1].Ready? then 1 else 0
  }

  function TaskOf(w: Worker): multiset<Task> {
    if w.Running? then multiset{w.task} else multiset{}
  }

  function ReadyOf(w: Worker): nat {
    if w.Ready? then 1 else 0
  }

  lemma {:induction false} UpdateReady(ws: seq<Worker>, i: nat, w: Worker)
    requires i < |ws|
    ensures CountReady(ws[i := w]) == CountReady(ws) - ReadyOf(ws[i]) + ReadyOf(w)
    decreases |ws|
  {
    var n := |ws| - 1;
    if i == n {
      assert ws[i := w][..n] == ws[..n];
    } else {
      UpdateReady(ws[..n], i, w);
      assert ws[i := w][..n] == ws[..n][i := w];
    }
  }

  lemma {:induction false} UpdateIdle(ws: seq<Worker>, i: nat, w: Worker)
    requires i < |ws| && !w.Running?
    ensures RunningTasks(ws) == RunningTasks(ws[i := w]) + TaskOf(ws[i])
    decreases |ws|
  {
    var n := |ws| - 1;
    if i == n {
      assert ws[i := w][..n] == ws[..n];
    } else {
      UpdateIdle(ws[..n], i, w);
      assert ws[i := w][..n] == ws[..n][i := w];
    }
  }

  lemma UpdateBusy(ws: seq<Worker>, i: nat, task: Task)
    requires i < |ws| && !ws[i].Running?
    ensures RunningTasks(ws[i := Running(task)]) == RunningTasks(ws) + multiset{task}
  {
    hide RunningTasks;
    var r := ws[i := Running(task)];
    UpdateIdle(r, i, ws[i]);
    assert r[i := ws[i]] == ws;
  }

  /** `r` is `ws` with some blocked workers made ready. */
  predicate Wakes(ws: seq<Worker>, r: seq<Worker>) {
    |r| == |ws| && forall i :: 0 <= i < |ws| ==> r[i] == ws[i] || (ws[i].Blocked? && r[i].Ready?)
  }

  lemma {:induction false} WakingCounts(ws: seq<Worker>, r: seq<Worker>)
    requires Wakes(ws, r)
    ensures RunningTasks(r) == RunningTasks(ws) && CountReady(r) >= CountReady(ws)
    ensures r != ws ==> CountReady(r) > CountReady(ws)
  {
    if ws != [] {
      var n := |ws| - 1;
      WakingCounts(ws[..n], r[..n]);
      assert ws == ws[..n] + [ws[n]] && r == r[..n] + [r[n]];
    }
  }

  lemma {:induction false} NobodyRuns(ws: seq<Worker>)
    ensures RunningTasks(ws) == multiset{} <==> forall i :: 0 <= i < |ws| ==> !ws[i].Running?
  {
    if ws != [] {
      var n := |ws| - 1;
      NobodyRuns(ws[..n]);
      assert ws == ws[..n] + [ws[n]];
    }
  }

  // The invariant.

  predicate CountsExact(p: Pool) {
    p.pending == |p.queue| && p.active == |RunningTasks(p.workers)|
  }

  /** Tasks leave the queue in the order they came, each is taken once, none is lost. */
  predicate HistoryExact(p: Pool) {
    && p.submitted == p.started + p.queue + p.discarded
    && multiset(p.started) == p.finished + RunningTasks(p.workers)
    && (p.discarded != [] ==> p.phase == Freed)
  }

  /** While a worker sleeps there is an awake idle worker for every queued task. */
  predicate NoLostWakeup(p: Pool) {
    && (AnyBlocked(p.workers) ==> CountReady(p.workers) >= |p.queue|)
    && (p.stop ==> !AnyBlocked(p.workers))
    && (forall t :: t in p.waiters && p.waiters[t].Waiting? ==> p.pending + p.active > 0)
  }

  predicate PhasesExact(p: Pool) {
    && |p.workers| > 0
    && (p.stop <==> p.phase != Live)
    && p.onTime <= |p.submitted|
    && (AnyExited(p.workers) ==> p.stop && |p.started| >= p.onTime)
  }

  predicate LastlyEmpty(p: Pool) {
    |p.workers| > 0 && AllExited(p.workers) && p.queue == [] && |p.started| >= p.onTime
  }

  predicate Inv(p: Pool) {
    && HistoryExact(p)
    && if p.phase == Freed then LastlyEmpty(p) else CountsExact(p) && NoLostWakeup(p) && PhasesExact(p)
  }

  lemma InitialInv(threads: nat)
    requires threads > 0
    ensures Inv(Initial(threads))
  {
    NobodyRuns(Initial(threads).workers);
  }

  // Every step keeps the invariant.

  lemma SubmitKeeps(p: Pool, task: Task, woken: set<nat>)
    requires Inv(p) && Enabled(p, Submit(task, woken))
    ensures Inv(Apply(p, Submit(task, woken)))
  {
    hide RunningTasks, CountReady;
    var ws := Wake(p.workers, woken);
    assert Wakes(p.workers, ws);
    WakingCounts(p.workers, ws);
    if AnyBlocked(p.workers) {
      var i :| i in woken && i < |p.workers| && p.workers[i].Blocked?;
      assert ws[i] != p.workers[i];
    }
    WakeKeepsOthers(p.workers, ws);
    assert p.started + (p.queue + [task]) + [] == p.started + p.queue + [] + [task];
  }

  lemma WakeKeepsOthers(ws: seq<Worker>, r: seq<Worker>)
    requires Wakes(ws, r)
    ensures AnyBlocked(r) ==> AnyBlocked(ws)
    ensures AnyExited(r) ==> AnyExited(ws)
  {
    if AnyBlocked(r) {
      var i :| 0 <= i < |r| && r[i].Blocked?;
      assert ws[i].Blocked?;
    }
    if AnyExited(r) {
      var i :| 0 <= i < |r| && r[i].Exited?;
      assert ws[i].Exited?;
    }
  }

  /** What changing one worker can do to the two existence claims. */
  lemma UpdateOthers(ws: seq<Worker>, i: nat, w: Worker)
    requires i < |ws|
    ensures AnyBlocked(ws[i := w]) ==> w.Blocked? || AnyBlocked(ws)
    ensures AnyExited(ws[i := w]) ==> w.Exited? || AnyExited(ws)
  {
    var r := ws[i := w];
    if AnyBlocked(r) && !w.Blocked? {
      var j :| 0 <= j < |r| && r[j].Blocked?;
      assert ws[j].Blocked?;
    }
    if AnyExited(r) && !w.Exited? {
      var j :| 0 <= j < |r| && r[j].Exited?;
      assert ws[j].Exited?;
    }
  }

  lemma TopKeeps(p: Pool, i: nat)
    requires Inv(p) && Enabled(p, WorkerTop(i))
    ensures Inv(Top(p, i))
  {
    hide RunningTasks, CountReady;
    var w := if p.queue == [] then if p.stop then Exited else Blocked else Running(p.queue[0]);
    UpdateReady(p.workers, i, w);
    UpdateOthers(p.workers, i, w);
    if p.queue == [] {
      UpdateIdle(p.workers, i, w);
    } else {
      UpdateBusy(p.workers, i, p.queue[0]);
      assert p.queue == [p.queue[0]] + p.queue[1..];
      assert p.started + p.queue == p.started + [p.queue[0]] + p.queue[1..];
    }
  }

  lemma DoneKeeps(p: Pool, i: nat)
    requires Inv(p) && Enabled(p, WorkerDone(i))
    ensures Inv(Done(p, i))
  {
    hide RunningTasks, CountReady;
    UpdateReady(p.workers, i, Ready);
    UpdateOthers(p.workers, i, Ready);
    var q := Done(p, i);
    assert HistoryExact(q) && CountsExact(q) by {
      UpdateIdle(p.workers, i, Ready);
      assert p.finished + RunningTasks(p.workers) == q.finished + RunningTasks(q.workers);
    }
  }

  lemma SpuriousKeeps(p: Pool, i: nat)
    requires Inv(p) && Enabled(p, WorkerSpurious(i))
    ensures Inv(p.(workers := p.workers[i := Ready]))
  {
    hide RunningTasks, CountReady;
    UpdateReady(p.workers, i, Ready);
    UpdateIdle(p.workers, i, Ready);
    UpdateOthers(p.workers, i, Ready);
  }

  lemma StopKeeps(p: Pool)
    requires Inv(p) && Enabled(p, DestroyStop)
    ensures Inv(Apply(p, DestroyStop))
  {
    hide RunningTasks, CountReady;
    var ws := WakeAll(p.workers);
    WakingCounts(p.workers, ws);
    WakeKeepsOthers(p.workers, ws);
  }

  lemma FreeKeeps(p: Pool)
    requires Inv(p) && Enabled(p, DestroyFree)
    ensures Inv(Apply(p, DestroyFree))
  {
    hide RunningTasks, CountReady;
    assert p.workers[0].Exited?;
    assert p.started + p.queue + [] == p.started + [] + p.queue;
  }

  lemma StepKeeps(p: Pool, s: Step)
    requires Inv(p) && Enabled(p, s)
    ensures Inv(Apply(p, s))
  {
    hide RunningTasks, CountReady;
    match s
    case Submit(task, woken) => SubmitKeeps(p, task, woken);
    case WorkerTop(i) => TopKeeps(p, i);
    case WorkerDone(i) => DoneKeeps(p, i);
    case WorkerSpurious(i) => SpuriousKeeps(p, i);
    case WaitCall(t) =>
    case WaitCheck(t) =>
    case WaitSpurious(t) =>
    case DestroyStop => StopKeeps(p);
    case DestroyFree => FreeKeeps(p);
  }

  // Runs.

  /** `ps` are the states a pool of some size passes through under the steps `steps`. */
  predicate IsRun(ps: seq<Pool>, steps: seq<Step>, threads: nat) {
    && threads > 0 && |ps| == |steps| + 1 && ps[0] == Initial(threads)
    && forall k :: 0 <= k < |steps| ==> Enabled(ps[k], steps[k]) && ps[k + 1] == Apply(ps[k], steps[k])
  }

  lemma {:induction false} RunInv(ps: seq<Pool>, steps: seq<Step>, threads: nat, k: nat)
    requires IsRun(ps, steps, threads) && k < |ps|
    ensures Inv(ps[k])
    decreases k
  {
    hide Inv, Apply, Enabled;
    if k == 0 {
      InitialInv(threads);
    } else {
      RunInv(ps, steps, threads, k - 1);
      StepKeeps(ps[k - 1], steps[k - 1]);
    }
  }

  /** The counters are exact, tasks are taken in submission order, each at most once. */
  lemma CountsAndOrder(ps: seq<Pool>, steps: seq<Step>, threads: nat, k: nat)
    requires IsRun(ps, steps, threads) && k < |ps|
    ensures var p := ps[k];
            && (p.phase != Freed ==> p.pending == |p.queue| && p.active == |RunningTasks(p.workers)|)
            && p.started <= p.submitted
            && multiset(p.started) == p.finished + RunningTasks(p.workers)
            && p.submitted == p.started + p.queue + p.discarded
  {
    hide RunningTasks;
    RunInv(ps, steps, threads, k);
  }

  /** `pool_wait` returns only when every task submitted so far has finished. */
  lemma WaitReturnsIdle(ps: seq<Pool>, steps: seq<Step>, threads: nat, k: nat, t: nat)
    requires IsRun(ps, steps, threads) && k < |steps|
    requires t in ps[k + 1].waiters && ps[k + 1].waiters[t].Returned?
    requires t in ps[k].waiters ==> !ps[k].waiters[t].Returned?
    ensures var p := ps[k];
            && p.queue == [] && (forall i :: 0 <= i < |p.workers| ==> !p.workers[i].Running?)
            && p.finished == multiset(p.submitted)
  {
    hide RunningTasks;
    RunInv(ps, steps, threads, k);
    var p := ps[k];
    assert steps[k] == WaitCheck(t);
    assert |RunningTasks(p.workers)| == 0;
    NobodyRuns(p.workers);
    assert p.submitted == p.started;
  }

  /** A waiting thread is woken by exactly the steps that leave the pool idle, apart from spurious wakeups. */
  lemma WokenExactlyWhenIdle(ps: seq<Pool>, steps: seq<Step>, threads: nat, k: nat, t: nat)
    requires IsRun(ps, steps, threads) && k < |steps|
    requires t in ps[k].waiters && ps[k].waiters[t].Waiting? && steps[k] != WaitSpurious(t)
    ensures var p := ps[k + 1];
            t in p.waiters && p.waiters[t] == if p.pending + p.active == 0 then Checking else Waiting
  {
    hide RunningTasks, CountReady, AnyBlocked, Wake, WakeAll;
    RunInv(ps, steps, threads, k);
    RunInv(ps, steps, threads, k + 1);
  }

  /**
    Every task submitted before the stop has finished before the pool is freed;
    what is freed without running was submitted after the stop.
   */
  lemma DestroyRunsEverything(ps: seq<Pool>, steps: seq<Step>, threads: nat, k: nat)
    requires IsRun(ps, steps, threads) && k < |ps| && ps[k].phase == Freed
    ensures var p := ps[k];
            && p.submitted == p.started + p.discarded && p.finished == multiset(p.started)
            && p.onTime <= |p.started|
            && (|p.submitted| == p.onTime ==> p.discarded == [] && p.finished == multiset(p.submitted))
  {
    hide RunningTasks;
    RunInv(ps, steps, threads, k);
    var p := ps[k];
    NobodyRuns(p.workers);
    assert p.started + [] + p.discarded == p.started + p.discarded;
    assert p.started + [] == p.started;
  }

  /** The tasks counted as on time are those submitted before the stop. */
  lemma {:induction false} OnTimeExact(ps: seq<Pool>, steps: seq<Step>, threads: nat, j: nat, k: nat)
    requires IsRun(ps, steps, threads) && j < k < |ps| && steps[j] == DestroyStop
    ensures ps[k].phase != Live && ps[k].onTime == |ps[j].submitted|
    decreases k
  {
    assert ps[k] == Apply(ps[k - 1], steps[k - 1]);
    if j < k - 1 {
      OnTimeExact(ps, steps, threads, j, k - 1);
    }
  }

  /** No wakeup is lost, for workers and for waiting threads. */
  lemma WakeupsReachEveryRun(ps: seq<Pool>, steps: seq<Step>, threads: nat, k: nat)
    requires IsRun(ps, steps, threads) && k < |ps| && ps[k].phase != Freed
    ensures var p := ps[k];
            && (AnyBlocked(p.workers) ==> CountReady(p.workers) >= |p.queue|)
            && (p.queue != [] && !p.stop ==>
                  exists i :: 0 <= i < |p.workers| && (p.workers[i].Ready? || p.workers[i].Running?))
            && (p.stop ==> !AnyBlocked(p.workers))
            && (p.queue == [] && (forall i :: 0 <= i < |p.workers| ==> !p.workers[i].Running?) ==>
                  forall t :: t in p.waiters ==> !p.waiters[t].Waiting?)
  {
    hide RunningTasks, CountReady;
    RunInv(ps, steps, threads, k);
    var p := ps[k];
    NobodyRuns(p.workers);
    if p.queue != [] && !p.stop {
      if AnyBlocked(p.workers) {
        SomeReady(p.workers);
      } else {
        assert !p.workers[0].Blocked? && !p.workers[0].Exited?;
      }
    }
  }

  lemma {:induction false} SomeReady(ws: seq<Worker>)
    ensures CountReady(ws) > 0 ==> exists i :: 0 <= i < |ws| && ws[i].Ready?
  {
    if ws != [] {
      var n := |ws| - 1;
      SomeReady(ws[..n]);
      if CountReady(ws[..n]) > 0 {
        var i :| 0 <= i < n && ws[..n][i].Ready?;
        assert ws[i].Ready?;
      } else if ws[n].Ready? {
        assert ws[n].Ready?;
      }
    }
  }

  // Shutdown ends.

  /** Work left before every worker has exited. */
  function Remaining(p: Pool): nat {
    3 * |p.queue| + 2 * |RunningTasks(p.workers)| + CountReady(p.workers)
  }

  /** After the stop some worker can always move until all have exited, and each move leaves less to do. */
  lemma JoinTerminates(p: Pool)
    requires Inv(p) && p.phase == Joining
    ensures !AllExited(p.workers) ==> exists i :: 0 <= i < |p.workers| && (p.workers[i].Ready? || p.workers[i].Running?)
    ensures forall i: nat :: Enabled(p, WorkerTop(i)) ==> Remaining(Apply(p, WorkerTop(i))) < Remaining(p)
    ensures forall i: nat :: Enabled(p, WorkerDone(i)) ==> Remaining(Apply(p, WorkerDone(i))) < Remaining(p)
  {
    hide RunningTasks, CountReady;
    if !AllExited(p.workers) {
      var i :| 0 <= i < |p.workers| && !p.workers[i].Exited?;
      assert !p.workers[i].Blocked?;
    }
    forall i: nat | Enabled(p, WorkerTop(i))
      ensures Remaining(Apply(p, WorkerTop(i))) < Remaining(p)
    {
      UpdateReady(p.workers, i, if p.queue == [] then Exited else Running(p.queue[0]));
      if p.queue == [] {
        UpdateIdle(p.workers, i, Exited);
      } else {
        UpdateBusy(p.workers, i, p.queue[0]);
      }
    }
    forall i: nat | Enabled(p, WorkerDone(i))
      ensures Remaining(Apply(p, WorkerDone(i))) < Remaining(p)
    {
      UpdateReady(p.workers, i, Ready);
      UpdateIdle(p.workers, i, Ready);
    }
  }

  /** A task submitted after the last worker exited is freed without being run. */
  lemma LateTaskDiscarded(task: Task) returns (ps: seq<Pool>, steps: seq<Step>)
    ensures IsRun(ps, steps, 1) && ps[|ps| - 1].phase == Freed && ps[|ps| - 1].discarded == [task]
  {
    var p0 := Initial(1);
    var p1 := Apply(p0, DestroyStop);
    assert p1.workers == [Ready];
    var p2 := Apply(p1, WorkerTop(0));
    assert p2.workers == [Exited];
    var p3 := Apply(p2, Submit(task, {}));
    assert p3.workers == [Exited];
    var p4 := Apply(p3, DestroyFree);
    ps, steps := [p0, p1, p2, p3, p4], [DestroyStop, WorkerTop(0), Submit(task, {}), DestroyFree];
  }
}
