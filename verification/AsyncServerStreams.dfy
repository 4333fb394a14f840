/**
  What becomes of a connection that is to be closed: the event stream of an expired
  session, a connection after a fatal reply, every connection when the server goes.
  And what becomes of a request: a task for a worker.
 */
module AsyncServerStreams {
  import opened Bytes
  import opened RefCounts
  import opened AsyncServer
  import opened AsyncServerInvariant
  import opened AsyncServerRuns

  /** On one of the reactor thread's lists of connections to close. */
  predicate Scheduled(r: Reactor, c: nat) {
    (r.Closing? && c in r.todo) || (r.Reaping? && c in r.toClose)
  }

  /** Created, and closed already or about to be. */
  predicate Doomed(s: Server, c: nat) {
    c < s.conns.next && (IsOpen(s.conns, c) ==> Scheduled(s.reactor, c))
  }

  lemma CountingKeepsOpen(p: Pool<Conn>, x: nat, c: nat)
    ensures IsOpen(Ref(p, x), c) == IsOpen(p, c) && Ref(p, x).next == p.next
    ensures (IsOpen(Unref(p, x), c) ==> IsOpen(p, c)) && Unref(p, x).next == p.next
  {
  }

  lemma WritingKeepsOpen(p: Pool<Conn>, x: nat, v: Conn, c: nat)
    ensures Put(p, x, v).next == p.next
    ensures IsOpen(Put(p, x, v), c) ==> IsOpen(p, c) || (c == x && !v.detached && Val(p, x).Some?)
    ensures c < p.next ==> IsOpen(Alloc(p, v), c) == IsOpen(p, c)
    ensures Alloc(p, v).next == p.next + 1
  {
  }

  predicate CountsConns(step: Step) {
    || step.StartReply? || step.StartWsPost? || step.RefForTask? || step.DrainItem? || step.DropBase?
    || step.WorkerReply? || step.WorkerDropConn?
  }

  predicate WritesConns(step: Step) {
    step.Accept? || step.Upgrade? || step.Attach? || step.Mark? || step.Clear? || step.TouchClosed?
  }

  lemma ConnsUntouched(s: Server, step: Step)
    requires Enabled(s, step) && !CountsConns(step) && !WritesConns(step)
    ensures Apply(s, step).conns == s.conns
  {
    hide Ref, Unref, Put, Alloc, Without, StreamOf, Finds, NoneListed, Advance, IsOpen, IsListed, OpenAs, Val;
  }

  lemma CountingReopensNothing(s: Server, step: Step, c: nat)
    requires Enabled(s, step) && CountsConns(step)
    ensures var t := Apply(s, step); t.conns.next == s.conns.next && (IsOpen(t.conns, c) ==> IsOpen(s.conns, c))
  {
    hide Ref, Unref, Put, Alloc, Without, StreamOf, Finds, NoneListed, Advance, IsOpen, OpenAs, IsListed;
    match step
    case StartReply(d, _) => CountingKeepsOpen(s.conns, d, c);
    case StartWsPost(d) => CountingKeepsOpen(s.conns, d, c);
    case RefForTask => CountingKeepsOpen(s.conns, s.reactor.conn, c);
    case DrainItem => CountingKeepsOpen(s.conns, s.reactor.items[0], c);
    case DropBase => CountingKeepsOpen(s.conns, s.reactor.todo[0], c);
    case WorkerReply(i) => CountingKeepsOpen(s.conns, s.tasks[i].conn, c);
    case WorkerDropConn(i) => CountingKeepsOpen(s.conns, s.tasks[i].conn, c);
  }

  lemma WritingReopensNothing(s: Server, step: Step, c: nat)
    requires Enabled(s, step) && WritesConns(step) && c < s.conns.next
    ensures var t := Apply(s, step); c < t.conns.next && (IsOpen(t.conns, c) ==> IsOpen(s.conns, c))
  {
    hide Ref, Unref, Put, Alloc, Without, StreamOf, Finds, NoneListed, Advance;
    match step
    case Accept => WritingKeepsOpen(s.conns, 0, Conn(false, Http), c);
    case Upgrade(d) => WritingKeepsOpen(s.conns, d, Conn(false, Ws), c);
    case Attach =>
      var d := s.reactor.conn;
      WritingKeepsOpen(s.conns, d, Conn(Val(s.conns, d).Some? && Val(s.conns, d).value.detached, Sse), c);
    case Mark =>
      var d := s.reactor.todo[0];
      if Val(s.conns, d).Some? {
        WritingKeepsOpen(s.conns, d, Val(s.conns, d).value.(detached := true), c);
      }
    case Clear(_) =>
    case TouchClosed(_) =>
  }

  /** No step opens a connection that exists. */
  lemma NothingReopens(s: Server, step: Step, c: nat)
    requires Enabled(s, step) && c < s.conns.next
    ensures var t := Apply(s, step); c < t.conns.next && (IsOpen(t.conns, c) ==> IsOpen(s.conns, c))
  {
    hide Enabled, Apply, IsOpen;
    if CountsConns(step) {
      CountingReopensNothing(s, step, c);
    } else if WritesConns(step) {
      WritingReopensNothing(s, step, c);
    } else {
      ConnsUntouched(s, step);
    }
  }

  /** A scheduled connection stays scheduled until it is marked. */
  lemma ScheduledStays(s: Server, step: Step, c: nat)
    requires Inv(s) && Enabled(s, step) && IsOpen(s.conns, c) && Scheduled(s.reactor, c)
    ensures var t := Apply(s, step); IsOpen(t.conns, c) ==> Scheduled(t.reactor, c)
  {
    hide Ref, Unref, Put, Alloc, Without, StreamOf, Finds, NoneListed, Advance, ConnCounts, EntryCounts, Subscriptions,
         Sound, Running, Distinct, MarkStep;
    if step.Mark? {
      MarkCloses(s, c);
    } else if step.DropBase? {
      assert s.reactor.todo[0] != c;
    } else if s.reactor.Reaping? {
      ReapingStays(s, step, c);
    }
  }

  lemma MarkCloses(s: Server, c: nat)
    requires ClosingAt(s, Start) && IsOpen(s.conns, c) && c in s.reactor.todo
    ensures var t := MarkStep(s); IsOpen(t.conns, c) ==> Scheduled(t.reactor, c)
  {
    if s.reactor.todo[0] != c {
      assert c in s.reactor.todo[1..];
    }
  }

  lemma DoomedStays(s: Server, step: Step, c: nat)
    requires Inv(s) && Enabled(s, step) && Doomed(s, c)
    ensures Doomed(Apply(s, step), c)
  {
    hide Inv, Enabled, Apply, IsOpen, Scheduled;
    NothingReopens(s, step, c);
    if IsOpen(s.conns, c) {
      ScheduledStays(s, step, c);
    }
  }

  lemma {:induction false} DoomedForever(s: Server, ss: seq<Server>, steps: seq<Step>, j: nat, k: nat, c: nat)
    requires Continues(s, ss, steps) && Inv(s) && j <= k < |ss| && Doomed(ss[j], c)
    ensures Doomed(ss[k], c)
    decreases k
  {
    hide Inv, Enabled, Apply, Doomed;
    if j < k {
      DoomedForever(s, ss, steps, j, k - 1, c);
      ContinuationInv(s, ss, steps, k - 1);
      DoomedStays(ss[k - 1], steps[k - 1], c);
    }
  }

  /** Whatever is scheduled for closing is closed by the time the reactor thread is back in its loop, for good. */
  lemma ScheduledIsClosed(ss: seq<Server>, steps: seq<Step>, j: nat, k: nat, c: nat)
    requires IsRun(ss, steps) && j <= k < |ss| && c < ss[j].conns.next
    requires Scheduled(ss[j].reactor, c) && ss[k].reactor.Idle?
    ensures !IsOpen(ss[k].conns, c)
  {
    hide Inv, Enabled, Apply, Continues, IsOpen;
    InitialInv();
    DoomedForever(INITIAL, ss, steps, j, k, c);
  }

  // The event stream of an expired session.

  lemma ReapedIsDoomed(s: Server, e: nat, c: nat)
    requires Inv(s) && Enabled(s, ReapUnlink(e)) && StreamOf(s.sessions, e) == Some(c)
    ensures var t := Apply(s, ReapUnlink(e)); c < t.conns.next && t.reactor.Reaping? && c in t.reactor.toClose
  {
    hide ConnCounts, EntryCounts, Registry, PhaseOk, ReactorOk, Running, Put;
    assert Streams(s, c);
  }

  /** Reaping a session closes its event stream: it is not open in any later state between handlers. */
  lemma ReapedStreamIsClosed(ss: seq<Server>, steps: seq<Step>, j: nat, k: nat, e: nat, c: nat)
    requires IsRun(ss, steps) && j < k < |ss| && ss[k].reactor.Idle?
    requires steps[j] == ReapUnlink(e) && StreamOf(ss[j].sessions, e) == Some(c)
    ensures !IsOpen(ss[k].conns, c)
  {
    hide Inv, Enabled, Apply, StreamOf, IsOpen;
    RunInv(ss, steps, j);
    ReapedIsDoomed(ss[j], e, c);
    ScheduledIsClosed(ss, steps, j + 1, k, c);
  }

  lemma ReapingStays(s: Server, step: Step, c: nat)
    requires Inv(s) && Enabled(s, step) && s.reactor.Reaping? && c in s.reactor.toClose
    ensures var t := Apply(s, step);
            if step.ReapEnd? then t.reactor.Closing? && c in t.reactor.todo
            else t.reactor.Reaping? && c in t.reactor.toClose
  {
    hide Ref, Unref, Put, Alloc, Without, StreamOf, Finds, NoneListed, Advance, ConnCounts, EntryCounts, Subscriptions,
         Sound, Running, Distinct, Registry, IsOpen, IsListed;
  }

  lemma {:induction false} ReapingCollects(ss: seq<Server>, steps: seq<Step>, j: nat, k: nat, c: nat)
    requires IsRun(ss, steps) && j <= k < |ss|
    requires ss[j].reactor.Reaping? && c in ss[j].reactor.toClose
    requires forall i :: j <= i < k ==> steps[i] != ReapEnd
    ensures ss[k].reactor.Reaping? && c in ss[k].reactor.toClose
    decreases k
  {
    hide Inv, Enabled, Apply;
    if j < k {
      ReapingCollects(ss, steps, j, k - 1, c);
      RunInv(ss, steps, k - 1);
      ReapingStays(ss[k - 1], steps[k - 1], c);
    }
  }

  /** The end of a reaping pass hands the streams of all the sessions it took to the closing loop. */
  lemma ReapHandsOver(ss: seq<Server>, steps: seq<Step>, j: nat, k: nat, e: nat, c: nat)
    requires IsRun(ss, steps) && j < k < |steps|
    requires steps[j] == ReapUnlink(e) && StreamOf(ss[j].sessions, e) == Some(c)
    requires steps[k] == ReapEnd && forall i :: j < i < k ==> steps[i] != ReapEnd
    ensures ss[k + 1].reactor.Closing? && c in ss[k + 1].reactor.todo
  {
    hide Inv, Enabled, Apply, StreamOf;
    RunInv(ss, steps, j);
    ReapedIsDoomed(ss[j], e, c);
    ReapingCollects(ss, steps, j + 1, k, c);
    RunInv(ss, steps, k);
    ReapingStays(ss[k], steps[k], c);
  }

  // From the subscription on.

  /** An open connection that became the stream of a session still is. */
  predicate Linked(s: Server, c: nat, e: nat) {
    c < s.conns.next && (IsOpen(s.conns, c) ==> StreamOf(s.sessions, e) == Some(c))
  }

  /** Another connection takes over the session, or the session expires. */
  predicate Replaces(s: Server, step: Step, e: nat) {
    (step == Attach && s.reactor.Subscribing? && s.reactor.entry == e) || step == ReapUnlink(e)
  }

  lemma AttachLinks(s: Server)
    requires Inv(s) && Enabled(s, Attach)
    ensures var t := Apply(s, Attach);
            && OpenAs(t.conns, s.reactor.conn, Sse)
            && StreamOf(t.sessions, s.reactor.entry) == Some(s.reactor.conn)
            && Linked(t, s.reactor.conn, s.reactor.entry)
  {
    hide ConnCounts, EntryCounts, Registry, PhaseOk, Running, Subscriptions;
  }

  predicate CountsSessions(step: Step) {
    || step.FindForPost? || step.FindForSse? || step.TakeRef? || step.ReleaseFound? || step.ReapUnref?
    || step.WorkerDropEntry?
  }

  predicate WritesSessions(step: Step) {
    step.CreateSession? || step.Attach? || step.Clear? || step.ReapUnlink?
  }

  lemma SessionsUntouched(s: Server, step: Step)
    requires Enabled(s, step) && !CountsSessions(step) && !WritesSessions(step)
    ensures Apply(s, step).sessions == s.sessions
  {
    hide Ref, Unref, Put, Alloc, Without, StreamOf, Finds, NoneListed, Advance, IsOpen, IsListed, OpenAs, Val;
  }

  lemma CountingKeepsStreams(s: Server, step: Step, e: nat)
    requires Inv(s) && Enabled(s, step) && CountsSessions(step) && IsListed(s.sessions, e)
    ensures StreamOf(Apply(s, step).sessions, e) == StreamOf(s.sessions, e)
  {
    hide Without, NoneListed, Advance, Inv, Ref, Unref, Alloc, Put, HeldEntry, StreamOf, IsListed, IsOpen, OpenAs,
         Finds;
    match step
    case FindForPost(_, f) => CountingKeepsStream(s, f, e);
    case FindForSse(_, f) => CountingKeepsStream(s, f, e);
    case TakeRef => CountingKeepsStream(s, s.reactor.entry, e);
    case ReleaseFound =>
      ReactorHolds(s);
      CountingKeepsStream(s, s.reactor.entry, e);
    case ReapUnref =>
      ReactorHolds(s);
      CountingKeepsStream(s, s.reactor.unlinked.value, e);
    case WorkerDropEntry(i) =>
      WorkerHolds(s, i);
      if s.tasks[i].entry.Some? {
        CountingKeepsStream(s, s.tasks[i].entry.value, e);
      }
  }

  lemma WritingKeepsStreams(s: Server, step: Step, c: nat, e: nat)
    requires Inv(s) && Enabled(s, step) && WritesSessions(step) && !Replaces(s, step, e)
    requires IsOpen(s.conns, c) && StreamOf(s.sessions, e) == Some(c)
    ensures StreamOf(Apply(s, step).sessions, e) == Some(c)
  {
    hide Without, NoneListed, ConnCounts, EntryCounts, Registry, Subscriptions, PhaseOk, Running, Alloc, Put, Sound;
    match step
    case CreateSession(_) => WritingKeepsStream(s.sessions, 0, Entry(true, None), e);
    case Attach =>
      var f := s.reactor.entry;
      WritingKeepsStream(s.sessions, f, Entry(IsListed(s.sessions, f), Some(s.reactor.conn)), e);
    case Clear(found) =>
      assert !IsOpen(s.conns, s.reactor.todo[0]);
      if found.Some? {
        WritingKeepsStream(s.sessions, found.value, Entry(IsListed(s.sessions, found.value), None), e);
      }
    case ReapUnlink(f) => WritingKeepsStream(s.sessions, f, Entry(false, None), e);
  }

  lemma StreamKept(s: Server, step: Step, c: nat, e: nat)
    requires Inv(s) && Enabled(s, step) && !Replaces(s, step, e)
    requires IsOpen(s.conns, c) && StreamOf(s.sessions, e) == Some(c)
    ensures StreamOf(Apply(s, step).sessions, e) == Some(c)
  {
    hide Inv, Enabled, Apply, StreamOf, IsOpen, IsListed, Replaces;
    if CountsSessions(step) {
      StreamIsListed(s, e);
      CountingKeepsStreams(s, step, e);
    } else if WritesSessions(step) {
      WritingKeepsStreams(s, step, c, e);
    } else {
      SessionsUntouched(s, step);
    }
  }

  lemma StreamIsListed(s: Server, e: nat)
    requires Inv(s) && StreamOf(s.sessions, e).Some?
    ensures IsListed(s.sessions, e)
  {
    hide ConnCounts, EntryCounts, Registry, PhaseOk, Running, ReactorOk, StreamOf, IsListed, Streams, Sound;
  }

  lemma CountingKeepsStream(s: Server, x: nat, e: nat)
    requires Inv(s) && IsListed(s.sessions, e)
    ensures StreamOf(Ref(s.sessions, x), e) == StreamOf(s.sessions, e)
    ensures (x == e ==> HeldEntry(s, e) > 0) ==> StreamOf(Unref(s.sessions, x), e) == StreamOf(s.sessions, e)
  {
    hide ConnCounts, Registry, PhaseOk, Running, Subscriptions, HeldEntry, ReactorOk;
    assert Refs(s.sessions, e) == One(IsListed(s.sessions, e)) + HeldEntry(s, e);
  }

  lemma WritingKeepsStream(p: Pool<Entry>, x: nat, v: Entry, e: nat)
    requires Sound(p) && Val(p, e).Some?
    ensures StreamOf(Put(p, x, v), e) == if x == e then v.sse else StreamOf(p, e)
    ensures StreamOf(Alloc(p, v), e) == StreamOf(p, e)
  {
  }

  lemma LinkedStays(s: Server, step: Step, c: nat, e: nat)
    requires Inv(s) && Enabled(s, step) && Linked(s, c, e) && !Replaces(s, step, e)
    ensures Linked(Apply(s, step), c, e)
  {
    hide Inv, Enabled, Apply, IsOpen, StreamOf, Replaces;
    NothingReopens(s, step, c);
    if IsOpen(s.conns, c) {
      StreamKept(s, step, c, e);
    }
  }

  lemma {:induction false} LinkedUntil(ss: seq<Server>, steps: seq<Step>, j: nat, k: nat, c: nat, e: nat)
    requires IsRun(ss, steps) && j <= k < |ss| && Linked(ss[j], c, e)
    requires forall i :: j <= i < k ==> !Replaces(ss[i], steps[i], e)
    ensures Linked(ss[k], c, e)
    decreases k
  {
    hide Inv, Enabled, Apply, Linked, Replaces;
    if j < k {
      LinkedUntil(ss, steps, j, k - 1, c, e);
      RunInv(ss, steps, k - 1);
      LinkedStays(ss[k - 1], steps[k - 1], c, e);
    }
  }

  /**
    A connection subscribed to a session does not outlive it: once the session is reaped,
    with no other connection subscribed to it in between, the connection is closed by the
    time the reactor thread is back in its loop.
   */
  lemma SubscriberDoesNotOutlive(ss: seq<Server>, steps: seq<Step>, j: nat, i: nat, k: nat)
    requires IsRun(ss, steps) && j < i < k < |ss| && ss[k].reactor.Idle?
    requires steps[j] == Attach && ss[j].reactor.Subscribing? && steps[i] == ReapUnlink(ss[j].reactor.entry)
    requires forall m :: j < m < i ==> !Replaces(ss[m], steps[m], ss[j].reactor.entry)
    ensures OpenAs(ss[j + 1].conns, ss[j].reactor.conn, Sse)
    ensures !IsOpen(ss[k].conns, ss[j].reactor.conn)
  {
    hide Inv, Enabled, Apply, StreamOf, IsOpen, OpenAs, Replaces;
    var c, e := ss[j].reactor.conn, ss[j].reactor.entry;
    RunInv(ss, steps, j);
    AttachLinks(ss[j]);
    LinkedUntil(ss, steps, j + 1, i, c, e);
    if IsOpen(ss[i].conns, c) {
      ReapedStreamIsClosed(ss, steps, i, k, e, c);
    } else {
      InitialInv();
      DoomedForever(INITIAL, ss, steps, i, k, c);
    }
  }

  // The other ways to close a connection.

  /** A connection whose closing begins, on its own or after a fatal reply, is closed. */
  lemma ClosingCloses(ss: seq<Server>, steps: seq<Step>, j: nat, k: nat, c: nat)
    requires IsRun(ss, steps) && j < k < |ss| && ss[k].reactor.Idle?
    requires steps[j] == StartClose(c) || (steps[j] == Push && ss[j].reactor == Replying(c, true))
    ensures !IsOpen(ss[k].conns, c)
  {
    hide Inv, IsOpen;
    RunInv(ss, steps, j);
    ClosingStarts(ss[j], steps[j], c);
    ScheduledIsClosed(ss, steps, j + 1, k, c);
  }

  lemma ClosingStarts(s: Server, step: Step, c: nat)
    requires Inv(s) && Enabled(s, step)
    requires step == StartClose(c) || (step == Push && s.reactor == Replying(c, true))
    ensures var t := Apply(s, step); Scheduled(t.reactor, c) && c < t.conns.next
  {
    hide EntryCounts, Registry, PhaseOk, Running, Subscriptions, TaskRefs;
    if step == Push {
      HeldExists(s, c);
    }
  }

  /** Closing the server closes every connection it had. */
  lemma DestroyedHasNoConnection(ss: seq<Server>, steps: seq<Step>, k: nat, c: nat)
    requires IsRun(ss, steps) && k < |ss| && ss[k].phase == Destroyed
    ensures !IsOpen(ss[k].conns, c)
  {
    hide ConnCounts, EntryCounts, Subscriptions, Running, Sound, IsRun;
    RunInv(ss, steps, k);
  }

  // Requests become tasks.

  /** A task for the request, beyond the first `n` tasks. */
  predicate TaskFor(ts: seq<Task>, n: nat, c: nat, e: Option<nat>) {
    exists i :: n <= i < |ts| && ts[i].conn == c && ts[i].entry == e
  }

  /** Where the reactor thread is while it turns a request into a task. */
  predicate InHand(r: Reactor, c: nat, e: Option<nat>) {
    || (e.Some? && (r == Creating(c, e.value) || r == Posting(c, e.value)))
    || r == Referenced(c, e) || r == Counted(c, e)
  }

  predicate Accepted(s: Server, n: nat, c: nat, e: Option<nat>) {
    n <= |s.tasks| && (InHand(s.reactor, c, e) || TaskFor(s.tasks, n, c, e))
  }

  /** The same tasks, some of them further on, and perhaps more. */
  predicate Extends(ts: seq<Task>, us: seq<Task>) {
    |ts| <= |us| && forall i :: 0 <= i < |ts| ==> us[i].conn == ts[i].conn && us[i].entry == ts[i].entry
  }

  lemma AdvanceExtends(ts: seq<Task>, i: nat, p: Progress)
    requires i < |ts|
    ensures Extends(ts, Advance(ts, i, p))
  {
  }

  /** Tasks keep their connection and session. */
  lemma TasksKept(s: Server, step: Step)
    requires Enabled(s, step)
    ensures Extends(s.tasks, Apply(s, step).tasks)
  {
    hide Ref, Unref, Put, Alloc, Without, StreamOf, Finds, NoneListed, IsOpen, IsListed, OpenAs, Val, Advance, Extends;
    match step
    case WorkerReply(i) => AdvanceExtends(s.tasks, i, Sending);
    case WorkerSilent(i) => AdvanceExtends(s.tasks, i, Replied);
    case WorkerPush(i) => AdvanceExtends(s.tasks, i, Replied);
    case WorkerDropConn(i) => AdvanceExtends(s.tasks, i, ConnReleased);
    case WorkerDropEntry(i) => AdvanceExtends(s.tasks, i, EntryReleased);
    case WorkerFinish(i) => AdvanceExtends(s.tasks, i, Gone);
    case SubmitTask => MoreExtends(s.tasks, [Task(s.reactor.conn, s.reactor.session, Working)]);
    case _ => MoreExtends(s.tasks, []);
  }

  lemma MoreExtends(ts: seq<Task>, more: seq<Task>)
    ensures Extends(ts, ts + more) && Extends(ts, ts)
  {
  }

  lemma InHandGoesOn(s: Server, step: Step, c: nat, e: Option<nat>)
    requires Inv(s) && Enabled(s, step) && InHand(s.reactor, c, e)
    ensures var t := Apply(s, step);
            InHand(t.reactor, c, e) || (step == SubmitTask && TaskFor(t.tasks, |s.tasks|, c, e))
  {
    hide Ref, Unref, Put, Alloc, Without, StreamOf, Finds, NoneListed, IsOpen, IsListed, OpenAs, Val, ConnCounts,
         EntryCounts, Subscriptions, Sound, Running, Registry, ReactorOk, Advance;
    if step == SubmitTask {
      var us := Apply(s, step).tasks;
      assert us[|s.tasks|] == Task(c, e, Working);
    }
  }

  lemma AcceptedStays(s: Server, step: Step, n: nat, c: nat, e: Option<nat>)
    requires Inv(s) && Enabled(s, step) && Accepted(s, n, c, e)
    ensures Accepted(Apply(s, step), n, c, e)
  {
    hide Inv, Enabled, Apply, InHand;
    TasksKept(s, step);
    assert Extends(s.tasks, Apply(s, step).tasks);
    if InHand(s.reactor, c, e) {
      InHandGoesOn(s, step, c, e);
    }
  }

  lemma {:induction false} AcceptedForever(ss: seq<Server>, steps: seq<Step>, j: nat, k: nat, n: nat,
                                           c: nat, e: Option<nat>)
    requires IsRun(ss, steps) && j <= k < |ss| && Accepted(ss[j], n, c, e)
    ensures Accepted(ss[k], n, c, e)
    decreases k
  {
    hide Inv, Enabled, Apply, Accepted;
    if j < k {
      AcceptedForever(ss, steps, j, k - 1, n, c, e);
      RunInv(ss, steps, k - 1);
      AcceptedStays(ss[k - 1], steps[k - 1], n, c, e);
    }
  }

  /** The session a step brings a request for, if it is one that ends in a task. */
  predicate Requests(s: Server, step: Step, c: nat, e: Option<nat>) {
    || (step == CreateSession(c) && e == Some(s.sessions.next))
    || (e.Some? && step == FindForPost(c, e.value))
    || (step == StartWsPost(c) && e.None?)
  }

  /**
    Every request for a worker, on a new session, on one that was found or on a WebSocket
    connection, has become a new task on its own connection and session by the time the
    reactor thread is back in its loop.
   */
  lemma RequestBecomesTask(ss: seq<Server>, steps: seq<Step>, j: nat, k: nat, c: nat, e: Option<nat>)
    requires IsRun(ss, steps) && j < k < |ss| && ss[k].reactor.Idle? && Requests(ss[j], steps[j], c, e)
    ensures TaskFor(ss[k].tasks, |ss[j].tasks|, c, e)
  {
    hide Inv, TaskFor;
    RequestInHand(ss[j], steps[j], c, e);
    AcceptedForever(ss, steps, j + 1, k, |ss[j].tasks|, c, e);
  }

  lemma RequestInHand(s: Server, step: Step, c: nat, e: Option<nat>)
    requires Enabled(s, step) && Requests(s, step, c, e)
    ensures Accepted(Apply(s, step), |s.tasks|, c, e)
  {
    hide Ref, Alloc, IsOpen, IsListed, OpenAs, Val;
  }
}
