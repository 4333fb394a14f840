/** What the invariant means for whole runs of the async server, and how destruction ends. */
module AsyncServerRuns {
  import opened Bytes
  import opened RefCounts
  import opened AsyncServer
  import opened AsyncServerInvariant

  /** `ss` are states that a server passes through from `s` on. */
  ghost predicate Continues(s: Server, ss: seq<Server>, steps: seq<Step>) {
    && |ss| == |steps| + 1 && ss[0] == s
    && forall k :: 0 <= k < |steps| ==> Enabled(ss[k], steps[k]) && ss[k + 1] == Apply(ss[k], steps[k])
  }

  lemma {:induction false} ContinuationInv(s: Server, ss: seq<Server>, steps: seq<Step>, k: nat)
    requires Continues(s, ss, steps) && Inv(s) && k < |ss|
    ensures Inv(ss[k])
    decreases k
  {
    hide Inv, Enabled, Apply;
    if k > 0 {
      ContinuationInv(s, ss, steps, k - 1);
      StepKeeps(ss[k - 1], steps[k - 1]);
    }
  }

  /** The states a server passes through under some interleaving of steps. */
  ghost predicate IsRun(ss: seq<Server>, steps: seq<Step>) {
    Continues(INITIAL, ss, steps)
  }

  lemma RunInv(ss: seq<Server>, steps: seq<Step>, k: nat)
    requires IsRun(ss, steps) && k < |ss|
    ensures Inv(ss[k])
  {
    hide Inv, Continues;
    InitialInv();
    ContinuationInv(INITIAL, ss, steps, k);
  }

  /** In every interleaving a connection's count is its holders, and nothing freed is ever touched. */
  lemma CountsAreExact(ss: seq<Server>, steps: seq<Step>, k: nat, c: nat)
    requires IsRun(ss, steps) && k < |ss|
    ensures var s := ss[k];
            && !s.conns.faulted && !s.sessions.faulted
            && Refs(s.conns, c)
               == One(IsOpen(s.conns, c)) + multiset(s.queue)[c] + TaskRefs(s.tasks, c) + ReactorRefs(s.reactor, c)
            && Refs(s.sessions, c)
               == One(IsListed(s.sessions, c)) + TaskEntryRefs(s.tasks, c) + ReactorEntryRefs(s.reactor, c)
  {
    hide Refs, TaskRefs, TaskEntryRefs, ReactorRefs, ReactorEntryRefs, Registry, Subscriptions, ReactorOk, PhaseOk;
    RunInv(ss, steps, k);
    var s := ss[k];
    assert Refs(s.conns, c) == One(IsOpen(s.conns, c)) + HeldConn(s, c);
    assert Refs(s.sessions, c) == One(IsListed(s.sessions, c)) + HeldEntry(s, c);
  }

  /** Between handlers: one base reference if not detached, one per queued response, and the running tasks'. */
  lemma CountsBetweenHandlers(ss: seq<Server>, steps: seq<Step>, k: nat, c: nat)
    requires IsRun(ss, steps) && k < |ss| && ss[k].reactor.Idle?
    ensures var s := ss[k];
            && Refs(s.conns, c) == One(IsOpen(s.conns, c)) + multiset(s.queue)[c] + TaskRefs(s.tasks, c)
            && Refs(s.sessions, c) == One(IsListed(s.sessions, c)) + TaskEntryRefs(s.tasks, c)
            && s.pending == Running(s.tasks)
  {
    hide Refs, TaskRefs, TaskEntryRefs, Running, IsOpen, IsListed, IsRun;
    CountsAreExact(ss, steps, k, c);
    assert PendingExact(ss[k]) by {
      RunInv(ss, steps, k);
    }
  }

  /** What was created either still exists, because somebody holds it, or was freed once, with no holder left. */
  lemma FreedOnceWhenUnheld(ss: seq<Server>, steps: seq<Step>, k: nat, c: nat)
    requires IsRun(ss, steps) && k < |ss|
    ensures var s := ss[k];
            && (c < s.conns.next ==> s.conns.freed[c] == One(!IsOpen(s.conns, c) && HeldConn(s, c) == 0))
            && (c < s.sessions.next ==> s.sessions.freed[c] == One(!IsListed(s.sessions, c) && HeldEntry(s, c) == 0))
            && (c >= s.conns.next ==> s.conns.freed[c] == 0 && HeldConn(s, c) == 0)
            && (c >= s.sessions.next ==> s.sessions.freed[c] == 0 && HeldEntry(s, c) == 0)
  {
    hide HeldConn, HeldEntry, Registry, Subscriptions, ReactorOk, PhaseOk;
    RunInv(ss, steps, k);
    var s := ss[k];
    assert Refs(s.conns, c) == One(IsOpen(s.conns, c)) + HeldConn(s, c);
    assert Refs(s.sessions, c) == One(IsListed(s.sessions, c)) + HeldEntry(s, c);
  }

  /** The connection counter is the number of connections not yet unlinked; the reaper never overruns its batch. */
  lemma RegistryIsExact(ss: seq<Server>, steps: seq<Step>, k: nat)
    requires IsRun(ss, steps) && k < |ss|
    ensures var s := ss[k];
            && s.count == |s.list| && Distinct(s.list)
            && (s.reactor.Idle? ==> forall c: nat :: c in s.list <==> IsOpen(s.conns, c))
            && (s.reactor.Reaping? ==> |s.reactor.toClose| <= 32)
  {
    hide ConnCounts, EntryCounts, Subscriptions, PhaseOk;
    RunInv(ss, steps, k);
  }

  /** Every connection and session ever created has been freed, once, and nobody uses the freed server. */
  ghost predicate Released(s: Server) {
    && s.conns.cells == map[] && s.sessions.cells == map[] && s.queue == [] && !s.touched
    && (forall c: nat :: s.conns.freed[c] == One(c < s.conns.next))
    && (forall e: nat :: s.sessions.freed[e] == One(e < s.sessions.next))
  }

  /** Destruction that began with no task pending releases everything, and no worker outlives the server. */
  lemma CalmDestroyReleases(s: Server)
    requires Inv(s) && s.phase == Destroyed && s.calm
    ensures Released(s)
  {
    hide TaskRefs, TaskEntryRefs, Running, Subscriptions;
    forall x: nat
      ensures x !in s.conns.cells && x !in s.sessions.cells
    {
      AllGone(s.tasks, x);
      assert Refs(s.conns, x) == One(IsOpen(s.conns, x)) + HeldConn(s, x);
      assert Refs(s.sessions, x) == One(IsListed(s.sessions, x)) + HeldEntry(s, x);
      assert x !in s.list;
    }
  }

  // Destruction ends.

  function Done(stage: Stage): nat {
    match stage
    case Start => 0
    case Marked => 1
    case Cleared => 2
    case Unlinked => 3
  }

  function ListedSet(p: Pool<Entry>): set<nat> {
    set e | e in p.cells && p.cells[e].val.listed
  }

  function Left(p: Progress): nat {
    match p
    case Working => 5
    case Sending => 4
    case Replied => 3
    case ConnReleased => 2
    case EntryReleased => 1
    case Gone => 0
  }

  function TaskWork(ts: seq<Task>): nat {
    if ts == [] then 0 else TaskWork(ts[..|ts| - 1]) + Left(ts[|ts| - 1].progress)
  }

  /** What is left to do in the current phase of destruction. */
  function Work(s: Server): int {
    match s.reactor
    case Closing(todo, stage, _) => 4 * |todo| - Done(stage)
    case Draining(items) => |items|
    case Reaping(_, unlinked) => 2 * |ListedSet(s.sessions)| + One(unlinked.Some?)
    case _ => 0
  }

  predicate Destroying(s: Server) {
    s.phase in {ClosingAll, DrainingAll, DroppingAll}
  }

  predicate IsWorker(step: Step) {
    || step.WorkerReply? || step.WorkerSilent? || step.WorkerPush?
    || step.WorkerDropConn? || step.WorkerDropEntry? || step.WorkerFinish?
  }

  lemma {:induction false} AdvanceLeft(ts: seq<Task>, i: nat, p: Progress)
    requires i < |ts|
    ensures TaskWork(Advance(ts, i, p)) == TaskWork(ts) - Left(ts[i].progress) + Left(p)
    decreases |ts|
  {
    hide Left;
    var n, us := |ts| - 1, Advance(ts, i, p);
    if i == n {
      assert us[..n] == ts[..n];
    } else {
      AdvanceLeft(ts[..n], i, p);
      assert us[..n] == Advance(ts[..n], i, p);
    }
  }

  lemma ClosingNotStuck(s: Server) returns (step: Step)
    requires s.reactor.Closing? && s.reactor.touch.None? && (s.reactor.stage != Start ==> s.reactor.todo != [])
    ensures Enabled(s, step) && !IsWorker(step)
  {
    hide StreamOf;
    var todo := s.reactor.todo;
    if todo == [] {
      step := CloseEnd;
    } else if s.reactor.stage == Start {
      step := Mark;
    } else if s.reactor.stage == Marked {
      if found: nat :| StreamOf(s.sessions, found) == Some(todo[0]) {
        step := Clear(Some(found));
      } else {
        step := Clear(None);
      }
    } else if s.reactor.stage == Cleared {
      step := Unlink;
    } else {
      step := DropBase;
    }
  }

  lemma DroppingNotStuck(s: Server) returns (step: Step)
    requires s.reactor.Reaping? && s.reactor.toClose == []
    ensures Enabled(s, step) && !IsWorker(step)
  {
    hide IsListed;
    if s.reactor.unlinked.Some? {
      step := ReapUnref;
    } else if e: nat :| IsListed(s.sessions, e) {
      step := ReapUnlink(e);
    } else {
      step := ReapEnd;
    }
  }

  /** While destruction is under way the destroying thread can always go on. */
  lemma DestroyNeverStuck(s: Server) returns (step: Step)
    requires Inv(s) && Destroying(s)
    ensures Enabled(s, step) && !IsWorker(step)
  {
    hide ConnCounts, EntryCounts, Sound, Registry, Subscriptions, Running;
    if s.phase == ClosingAll {
      step := ClosingNotStuck(s);
    } else if s.phase == DrainingAll {
      step := if s.reactor.items == [] then DrainEnd else DrainItem;
    } else {
      step := DroppingNotStuck(s);
    }
  }

  predicate Advances(s: Server, t: Server) {
    && 0 <= Work(s)
    && (|| Rank(t.phase) < Rank(s.phase)
        || (t.phase == s.phase && Work(t) + TaskWork(t.tasks) < Work(s) + TaskWork(s.tasks)))
  }

  /** Every step of destruction and of the workers beside it leaves less to do, so it ends. */
  lemma DestroyAdvances(s: Server, step: Step)
    requires Inv(s) && Destroying(s) && Enabled(s, step)
    ensures Advances(s, Apply(s, step))
    ensures !IsWorker(step) ==> Apply(s, step).tasks == s.tasks && Apply(s, step).calm == s.calm
  {
    hide ConnCounts, EntryCounts, Registry, Subscriptions, Running, Ref, Unref, Put, Alloc, Val, Refs, Sound, Without,
         IsListed, StreamOf, ListedSet, TaskWork, Advance;
    if step.ReapUnlink? {
      ListedShrinks(s, step.e);
    } else if step.ReapUnref? {
      ListedStays(s, s.reactor.unlinked.value);
    } else if step.Mark? {
      MarkExists(s);
    } else if IsWorker(step) {
      WorkerAdvances(s, step);
    }
  }

  lemma WorkerAdvances(s: Server, step: Step)
    requires Inv(s) && Destroying(s) && Enabled(s, step) && IsWorker(step)
    ensures Advances(s, Apply(s, step))
  {
    hide ConnCounts, EntryCounts, Registry, Subscriptions, Running, Ref, Unref, Put, Alloc, Val, Refs, Sound, Without,
         IsListed, StreamOf, ListedSet, TaskWork, Advance;
    var i := step.i;
    forall p: Progress
      ensures TaskWork(Advance(s.tasks, i, p)) == TaskWork(s.tasks) - Left(s.tasks[i].progress) + Left(p)
    {
      AdvanceLeft(s.tasks, i, p);
    }
    if step.WorkerDropEntry? && s.tasks[i].entry.Some? {
      WorkerHolds(s, i);
      UnrefKeepsListed(s, s.tasks[i].entry.value);
    }
  }

  lemma UnrefKeepsListed(s: Server, e: nat)
    requires Inv(s) && HeldEntry(s, e) > 0
    ensures ListedSet(Unref(s.sessions, e)) == ListedSet(s.sessions)
  {
    hide ConnCounts, Registry, Subscriptions, Running, PhaseOk, HeldEntry;
    LetGoEntry(s, e);
    assert Refs(s.sessions, e) == One(IsListed(s.sessions, e)) + HeldEntry(s, e);
  }

  lemma MarkExists(s: Server)
    requires Inv(s) && ClosingAt(s, Start)
    ensures Val(s.conns, s.reactor.todo[0]).Some?
  {
    hide EntryCounts, Registry, Subscriptions, Running, PhaseOk, TaskRefs;
    if s.reactor.todo[0] in s.queue {
      QueueHolds(s, s.reactor.todo[0]);
      HeldExists(s, s.reactor.todo[0]);
    }
  }

  lemma ListedShrinks(s: Server, e: nat)
    requires IsListed(s.sessions, e) && s.reactor.Reaping?
    ensures |ListedSet(ReapUnlinkStep(s, e).sessions)| < |ListedSet(s.sessions)|
  {
    assert ListedSet(ReapUnlinkStep(s, e).sessions) == ListedSet(s.sessions) - {e};
    assert e in ListedSet(s.sessions);
  }

  lemma ListedStays(s: Server, e: nat)
    requires Inv(s) && s.reactor.Reaping? && s.reactor.unlinked == Some(e)
    ensures ListedSet(Unref(s.sessions, e)) == ListedSet(s.sessions)
  {
    hide Inv, HeldEntry;
    ReactorHolds(s);
    UnrefKeepsListed(s, e);
  }

  // When the second wait ends: exactly when destruction is safe.

  /** Once closing has begun its phase only goes on and `calm` stays as it is. */
  lemma LateStep(s: Server, step: Step)
    requires Inv(s) && Enabled(s, step) && Rank(s.phase) < 4
    ensures Rank(Apply(s, step).phase) < 4 && Apply(s, step).calm == s.calm
  {
    hide ConnCounts, EntryCounts, Registry, Subscriptions, Running, Ref, Unref, Put, Alloc, Val, Refs, Sound, Without,
         IsListed, StreamOf, ReactorOk, Advance, IsOpen, OpenAs, Finds, NoneListed;
  }

  lemma {:induction false} CalmStays(s: Server, ss: seq<Server>, steps: seq<Step>, k: nat)
    requires Continues(s, ss, steps) && Inv(s) && Rank(s.phase) < 4 && k < |ss|
    ensures Rank(ss[k].phase) < 4 && ss[k].calm == s.calm
    decreases k
  {
    hide Inv, Enabled, Apply;
    if k > 0 {
      CalmStays(s, ss, steps, k - 1);
      ContinuationInv(s, ss, steps, k - 1);
      LateStep(ss[k - 1], steps[k - 1]);
    }
  }

  /** The destroying thread running alone to the end. */
  lemma {:induction false} DestroyAlone(s: Server) returns (ss: seq<Server>, steps: seq<Step>)
    requires Inv(s) && Destroying(s)
    ensures Continues(s, ss, steps)
    ensures ss[|steps|].phase == Destroyed && ss[|steps|].tasks == s.tasks
    decreases Rank(s.phase), Work(s) + TaskWork(s.tasks)
  {
    hide Inv, Enabled, Apply, Work, TaskWork;
    var step := DestroyNeverStuck(s);
    DestroyAdvances(s, step);
    StepKeeps(s, step);
    var t := Apply(s, step);
    WorkNonNegative(s);
    if t.phase == Destroyed {
      ss, steps := [s, t], [step];
    } else {
      LateStep(s, step);
      var more, rest := DestroyAlone(t);
      ss, steps := [s] + more, [step] + rest;
    }
  }

  lemma WorkNonNegative(s: Server)
    requires Inv(s) && Destroying(s)
    ensures Work(s) >= 0
  {
    hide ConnCounts, EntryCounts, Registry, Subscriptions, Running, Sound;
  }

  lemma {:induction false} SomebodyRuns(ts: seq<Task>) returns (i: nat)
    requires Running(ts) > 0
    ensures i < |ts| && ts[i].progress != Gone
  {
    var n := |ts| - 1;
    if ts[n].progress != Gone {
      i := n;
    } else {
      i := SomebodyRuns(ts[..n]);
    }
  }

  lemma WorkerCanMove(s: Server, i: nat) returns (step: Step)
    requires i < |s.tasks| && s.tasks[i].progress != Gone
    ensures Enabled(s, step) && IsWorker(step) && Apply(s, step).touched == (s.touched || s.phase == Destroyed)
  {
    hide Ref, Unref, Put, Alloc, Val, Refs, Sound, Without;
    match s.tasks[i].progress {
      case Working => step := WorkerSilent(i);
      case Sending => step := WorkerPush(i);
      case Replied => step := WorkerDropConn(i);
      case ConnReleased => step := WorkerDropEntry(i);
      case EntryReleased => step := WorkerFinish(i);
    }
  }

  /** The reactor has left its loop after the first wait was over. */
  predicate ReadyToClose(s: Server) {
    s.phase == Awaited && s.reactor.Idle?
  }

  /** No continuation of destruction from here leaks anything or lets a worker use the freed server. */
  ghost predicate AlwaysReleases(s: Server)
    requires ReadyToClose(s)
  {
    forall ss: seq<Server>, steps: seq<Step> ::
      Continues(Apply(s, StartClosing), ss, steps) && ss[|steps|].phase == Destroyed ==>
      Released(ss[|steps|])
  }

  /** A pending task at the second wait can outlive the server. */
  lemma PendingTaskOutlives(s: Server) returns (ss: seq<Server>, steps: seq<Step>)
    requires Inv(s) && ReadyToClose(s) && s.pending > 0
    ensures Continues(Apply(s, StartClosing), ss, steps)
    ensures ss[|steps|].phase == Destroyed && ss[|steps|].touched
  {
    hide Inv, Enabled, Apply;
    ClosingBegins(s);
    StepKeeps(s, StartClosing);
    var t := Apply(s, StartClosing);
    var more, rest := DestroyAlone(t);
    var i := SomebodyRuns(s.tasks);
    var end := more[|rest|];
    var step := WorkerCanMove(end, i);
    StaysDestroyed(end, step);
    ss, steps := more + [Apply(end, step)], rest + [step];
  }

  lemma ClosingBegins(s: Server)
    requires Inv(s) && ReadyToClose(s)
    ensures Enabled(s, StartClosing)
    ensures var t := Apply(s, StartClosing);
            Destroying(t) && t.tasks == s.tasks && t.calm == (s.pending == 0) && Running(s.tasks) == s.pending
  {
    hide ConnCounts, EntryCounts, Registry, Subscriptions, Running, Sound;
  }

  lemma StaysDestroyed(s: Server, step: Step)
    requires Enabled(s, step) && IsWorker(step) && s.phase == Destroyed
    ensures Apply(s, step).phase == Destroyed
  {
    hide Ref, Unref, Put, Alloc, Val, Refs, Sound, Without;
  }

  /**
    Destruction always releases everything exactly when no task is pending at
    the second wait: a task submitted between the two waits and still running
    is waited for by neither.
   */
  lemma ReleaseIsExact(ss: seq<Server>, steps: seq<Step>, k: nat)
    requires IsRun(ss, steps) && k < |ss| && ReadyToClose(ss[k])
    ensures AlwaysReleases(ss[k]) <==> ss[k].pending == 0
  {
    hide Inv, Enabled, Apply, Released, IsRun;
    var s := ss[k];
    RunInv(ss, steps, k);
    ClosingBegins(s);
    StepKeeps(s, StartClosing);
    var t := Apply(s, StartClosing);
    if s.pending == 0 {
      forall more: seq<Server>, rest: seq<Step> | Continues(t, more, rest) && more[|rest|].phase == Destroyed
        ensures Released(more[|rest|])
      {
        ContinuationInv(t, more, rest, |rest|);
        CalmStays(t, more, rest, |rest|);
        CalmDestroyReleases(more[|rest|]);
      }
    } else {
      PendingNotNegative(s);
      var more, rest := PendingTaskOutlives(s);
      TouchedIsNotReleased(more[|rest|]);
    }
  }

  lemma PendingNotNegative(s: Server)
    requires Inv(s)
    ensures s.pending >= 0
  {
    hide ConnCounts, EntryCounts, Registry, Subscriptions, Running, Sound, ReactorOk, PhaseOk;
  }

  lemma TouchedIsNotReleased(s: Server)
    requires s.touched
    ensures !Released(s)
  {
  }

  /** A server with one connection that nothing but the given state refers to. */
  function OneConnection(refs: nat, kind: Kind, r: Reactor, pending: int, ts: seq<Task>, p: Phase): Server {
    INITIAL.(conns := Pool(map[0 := Cell(refs, Conn(false, kind))], 1, multiset{}, false),
             reactor := r, pending := pending, tasks := ts, list := [0], count := 1, phase := p)
  }

  lemma ConnectedSteps()
    ensures Enabled(INITIAL, Accept) && Apply(INITIAL, Accept) == OneConnection(1, Http, Idle, 0, [], Serving)
    ensures Enabled(OneConnection(1, Http, Idle, 0, [], Serving), Upgrade(0))
    ensures Apply(OneConnection(1, Http, Idle, 0, [], Serving), Upgrade(0)) == OneConnection(1, Ws, Idle, 0, [], Serving)
  {
  }

  lemma AwaitedSteps()
    ensures Enabled(OneConnection(1, Ws, Idle, 0, [], Serving), AwaitTasks)
    ensures Apply(OneConnection(1, Ws, Idle, 0, [], Serving), AwaitTasks) == OneConnection(1, Ws, Idle, 0, [], Awaited)
    ensures Enabled(OneConnection(1, Ws, Idle, 0, [], Awaited), StartWsPost(0))
    ensures Apply(OneConnection(1, Ws, Idle, 0, [], Awaited), StartWsPost(0))
         == OneConnection(2, Ws, Referenced(0, None), 0, [], Awaited)
  {
  }

  lemma SubmittingSteps()
    ensures Enabled(OneConnection(2, Ws, Referenced(0, None), 0, [], Awaited), CountTask)
    ensures Apply(OneConnection(2, Ws, Referenced(0, None), 0, [], Awaited), CountTask)
         == OneConnection(2, Ws, Counted(0, None), 1, [], Awaited)
    ensures Enabled(OneConnection(2, Ws, Counted(0, None), 1, [], Awaited), SubmitTask)
    ensures Apply(OneConnection(2, Ws, Counted(0, None), 1, [], Awaited), SubmitTask)
         == OneConnection(2, Ws, Idle, 1, [Task(0, None, Working)], Awaited)
  {
  }

  /** Such a state is reached: a WebSocket message is submitted after the first wait. */
  lemma SubmittedBetweenTheWaits() returns (ss: seq<Server>, steps: seq<Step>)
    ensures IsRun(ss, steps) && ReadyToClose(ss[|steps|]) && ss[|steps|].pending == 1
  {
    ConnectedSteps();
    AwaitedSteps();
    SubmittingSteps();
    hide Enabled, Apply;
    steps := [Accept, Upgrade(0), AwaitTasks, StartWsPost(0), CountTask, SubmitTask];
    ss := [INITIAL,
           OneConnection(1, Http, Idle, 0, [], Serving),
           OneConnection(1, Ws, Idle, 0, [], Serving),
           OneConnection(1, Ws, Idle, 0, [], Awaited),
           OneConnection(2, Ws, Referenced(0, None), 0, [], Awaited),
           OneConnection(2, Ws, Counted(0, None), 1, [], Awaited),
           OneConnection(2, Ws, Idle, 1, [Task(0, None, Working)], Awaited)];
  }
}
