/** What every step of the async server keeps. */
module AsyncServerInvariant {
  import opened Bytes
  import opened RefCounts
  import opened AsyncServer

  /** Every count is exactly the number of holders. */
  ghost predicate ConnCounts(s: Server) {
    forall c: nat :: Refs(s.conns, c) == One(IsOpen(s.conns, c)) + HeldConn(s, c)
  }

  ghost predicate EntryCounts(s: Server) {
    forall e: nat :: Refs(s.sessions, e) == One(IsListed(s.sessions, e)) + HeldEntry(s, e)
  }

  /** Being closed but not yet off the connection list. */
  predicate Leaving(r: Reactor, c: nat) {
    r.Closing? && (r.stage == Marked || r.stage == Cleared) && r.todo != [] && r.todo[0] == c
  }

  /** The connection list holds the open connections, each once, and is counted. */
  ghost predicate Registry(s: Server) {
    && Distinct(s.list) && s.count == |s.list|
    && (forall c: nat :: c in s.list <==> IsOpen(s.conns, c) || Leaving(s.reactor, c))
  }

  /** Fit to be an event stream: open, or just marked for closing. */
  predicate Streams(s: Server, c: nat) {
    && Val(s.conns, c).Some? && Val(s.conns, c).value.kind == Sse
    && (IsOpen(s.conns, c) || (Leaving(s.reactor, c) && s.reactor.stage == Marked))
  }

  /** Only listed sessions have an event stream, each its own, on a connection that is still there. */
  ghost predicate Subscriptions(s: Server) {
    && (forall e: nat :: StreamOf(s.sessions, e).Some? ==>
          IsListed(s.sessions, e) && Streams(s, StreamOf(s.sessions, e).value))
    && (forall e: nat, f: nat :: e != f && StreamOf(s.sessions, e).Some? ==>
          StreamOf(s.sessions, e) != StreamOf(s.sessions, f))
  }

  ghost predicate ClosingOk(s: Server, todo: seq<nat>, stage: Stage, touch: Option<nat>) {
    && Distinct(todo)
    && (forall i :: 1 <= i < |todo| ==> IsOpen(s.conns, todo[i]))
    && (touch.Some? ==> touch.value in s.queue)
    && (stage == Start && todo != [] ==> IsOpen(s.conns, todo[0]) || todo[0] in s.queue)
    && (stage != Start ==> todo != [] && !IsOpen(s.conns, todo[0]))
  }

  ghost predicate ReapingOk(s: Server, toClose: seq<nat>, unlinked: Option<nat>) {
    && |toClose| <= REAP_BATCH && Distinct(toClose)
    && (forall c :: c in toClose ==> IsOpen(s.conns, c) && Finds(s.sessions, c, None))
    && (unlinked.Some? ==> !IsListed(s.sessions, unlinked.value))
  }

  ghost predicate ReactorOk(s: Server) {
    match s.reactor
    case Creating(c, e) => OpenAs(s.conns, c, Http) && IsListed(s.sessions, e)
    case Posting(c, e) => IsOpen(s.conns, c)
    case Subscribing(c, e) => OpenAs(s.conns, c, Http) && IsListed(s.sessions, e)
    case Closing(todo, stage, touch) => ClosingOk(s, todo, stage, touch)
    case Reaping(toClose, unlinked) => ReapingOk(s, toClose, unlinked)
    case _ => true
  }

  predicate PendingExact(s: Server) {
    s.pending == Running(s.tasks) + One(s.reactor.Counted?)
  }

  /** In the phases after closing has begun; responses queued after the draining stay. */
  ghost predicate PhaseOk(s: Server) {
    && (Rank(s.phase) < 4 && s.calm ==> Running(s.tasks) == 0)
    && (s.touched ==> s.phase == Destroyed && !s.calm)
    && (Rank(s.phase) < 3 && s.calm ==> s.queue == [])
    && match s.phase
       case ClosingAll => s.reactor.Closing? && s.reactor.touch.None? && forall c :: c in s.list ==> c in s.reactor.todo
       case DrainingAll => s.reactor.Draining? && s.list == []
       case DroppingAll => s.reactor.Reaping? && s.reactor.toClose == [] && s.list == []
       case Destroyed => s.reactor.Idle? && s.list == [] && NoneListed(s.sessions)
       case _ => true
  }

  function Rank(p: Phase): nat {
    match p
    case Serving => 5
    case Awaited => 4
    case ClosingAll => 3
    case DrainingAll => 2
    case DroppingAll => 1
    case Destroyed => 0
  }

  ghost predicate Inv(s: Server) {
    && Sound(s.conns) && Sound(s.sessions) && ConnCounts(s) && EntryCounts(s)
    && Registry(s) && Subscriptions(s) && ReactorOk(s) && PendingExact(s) && PhaseOk(s)
  }

  lemma InitialInv()
    ensures Inv(INITIAL)
  {
  }

  // Changes that keep what is open and what is listed.

  /** Only connections that were not open disappear. */
  ghost predicate SameConns(p: Pool<Conn>, q: Pool<Conn>) {
    forall c: nat :: Val(q, c) == Val(p, c) || (Val(q, c).None? && !IsOpen(p, c))
  }

  ghost predicate SameEntries(p: Pool<Entry>, q: Pool<Entry>) {
    forall e: nat :: Val(q, e) == Val(p, e) || (Val(q, e).None? && !IsListed(p, e))
  }

  /** A holder other than the base reference can always let go, and frees only what nobody else holds. */
  lemma LetGoConn(s: Server, c: nat)
    requires Sound(s.conns) && ConnCounts(s) && HeldConn(s, c) > 0
    ensures Refs(s.conns, c) > 0 && Sound(Unref(s.conns, c)) && SameConns(s.conns, Unref(s.conns, c))
    ensures forall d: nat :: Refs(Unref(s.conns, c), d) == Refs(s.conns, d) - One(d == c)
  {
    hide Unref, Refs, Val, HeldConn;
    assert Refs(s.conns, c) == One(IsOpen(s.conns, c)) + HeldConn(s, c);
    UnrefEffect(s.conns, c);
  }

  lemma LetGoEntry(s: Server, e: nat)
    requires Sound(s.sessions) && EntryCounts(s) && HeldEntry(s, e) > 0
    ensures Refs(s.sessions, e) > 0 && Sound(Unref(s.sessions, e)) && SameEntries(s.sessions, Unref(s.sessions, e))
    ensures forall f: nat :: Refs(Unref(s.sessions, e), f) == Refs(s.sessions, f) - One(f == e)
  {
    hide Unref, Refs, Val, HeldEntry;
    assert Refs(s.sessions, e) == One(IsListed(s.sessions, e)) + HeldEntry(s, e);
    UnrefEffect(s.sessions, e);
  }

  lemma OpenSame(p: Pool<Conn>, q: Pool<Conn>)
    requires SameConns(p, q)
    ensures forall c: nat :: IsOpen(q, c) == IsOpen(p, c)
    ensures forall c: nat, k: Kind :: OpenAs(q, c, k) == OpenAs(p, c, k)
  {
    hide Val;
  }

  lemma StreamsSame(s: Server, q: Pool<Entry>)
    requires Subscriptions(s) && SameEntries(s.sessions, q)
    ensures forall e: nat :: IsListed(q, e) == IsListed(s.sessions, e)
    ensures forall e: nat :: StreamOf(q, e) == StreamOf(s.sessions, e)
  {
    hide Val, Streams;
  }

  predicate Quiet(r: Reactor) {
    r.Closing? ==> r.stage == Start
  }

  lemma QuietKeeps(s: Server, t: Server)
    requires Registry(s) && Subscriptions(s) && SameConns(s.conns, t.conns) && SameEntries(s.sessions, t.sessions)
    requires Quiet(s.reactor) && Quiet(t.reactor) && t.list == s.list && t.count == s.count
    ensures Registry(t) && Subscriptions(t)
  {
    hide Val, IsListed, StreamOf;
    OpenSame(s.conns, t.conns);
    StreamsSame(s, t.sessions);
    forall e: nat | StreamOf(t.sessions, e).Some?
      ensures Streams(t, StreamOf(t.sessions, e).value)
    {
      assert Streams(s, StreamOf(s.sessions, e).value);
    }
  }

  /** A held connection exists. */
  lemma HeldExists(s: Server, c: nat)
    requires Sound(s.conns) && ConnCounts(s) && HeldConn(s, c) > 0
    ensures Val(s.conns, c).Some?
  {
    hide HeldConn;
    assert Refs(s.conns, c) == One(IsOpen(s.conns, c)) + HeldConn(s, c);
  }

  // Worker steps: the reactor stays where it is.

  lemma ElsewhereKeeps(s: Server, t: Server)
    requires Registry(s) && Subscriptions(s) && ReactorOk(s)
    requires SameConns(s.conns, t.conns) && SameEntries(s.sessions, t.sessions) && Sound(t.conns) && ConnCounts(t)
    requires t.list == s.list && t.count == s.count && t.reactor == s.reactor
    requires forall c :: c in s.queue ==> c in t.queue
    ensures Registry(t) && Subscriptions(t) && ReactorOk(t)
  {
    hide Val, IsOpen, IsListed, StreamOf, OpenAs;
    OpenSame(s.conns, t.conns);
    StreamsSame(s, t.sessions);
    forall e: nat | StreamOf(t.sessions, e).Some?
      ensures Streams(t, StreamOf(t.sessions, e).value)
    {
      var c := StreamOf(s.sessions, e).value;
      assert Streams(s, c);
      StreamStays(s, t, c);
    }
  }

  lemma StreamStays(s: Server, t: Server, c: nat)
    requires Streams(s, c) && SameConns(s.conns, t.conns) && t.reactor == s.reactor && Sound(t.conns) && ConnCounts(t)
    ensures Streams(t, c)
  {
    hide Val, TaskRefs;
    if Leaving(s.reactor, c) {
      HeldExists(t, c);
    }
  }

  lemma WorkerKeeps(s: Server, t: Server, i: nat, p: Progress)
    requires Inv(s) && i < |s.tasks| && t.tasks == Advance(s.tasks, i, p) && s.tasks[i].progress != Gone
    requires t.list == s.list && t.count == s.count && t.reactor == s.reactor
    requires t.phase == s.phase && t.calm == s.calm && t.touched == (s.touched || s.phase == Destroyed)
    requires t.queue == s.queue || (t.queue == s.queue + [s.tasks[i].conn])
    requires Sound(t.conns) && SameConns(s.conns, t.conns) && Sound(t.sessions) && SameEntries(s.sessions, t.sessions)
    requires forall x: nat :: Refs(t.conns, x) - multiset(t.queue)[x] - Holds(t.tasks[i], x)
                           == Refs(s.conns, x) - multiset(s.queue)[x] - Holds(s.tasks[i], x)
    requires forall x: nat :: Refs(t.sessions, x) - HoldsEntry(t.tasks[i], x)
                           == Refs(s.sessions, x) - HoldsEntry(s.tasks[i], x)
    requires t.pending == s.pending - One(p == Gone)
    ensures Inv(t)
  {
    hide TaskRefs, TaskEntryRefs, Running, Val, Refs, Sound, Registry, Subscriptions, ReactorOk, IsOpen, IsListed,
         Holds, HoldsEntry, ReactorRefs, ReactorEntryRefs, Advance;
    var w := s.tasks[i].(progress := p);
    assert Advance(s.tasks, i, p) == s.tasks[i := w] by { AdvanceMeans(s.tasks, i, p); }
    OpenSame(s.conns, t.conns);
    StreamsSame(s, t.sessions);
    forall x: nat
      ensures Refs(t.conns, x) == One(IsOpen(t.conns, x)) + HeldConn(t, x)
      ensures Refs(t.sessions, x) == One(IsListed(t.sessions, x)) + HeldEntry(t, x)
    {
      UpdateTask(s.tasks, i, w, x);
      assert Refs(s.conns, x) == One(IsOpen(s.conns, x)) + HeldConn(s, x);
      assert Refs(s.sessions, x) == One(IsListed(s.sessions, x)) + HeldEntry(s, x);
    }
    UpdateTask(s.tasks, i, w, 0);
    ElsewhereKeeps(s, t);
    WorkerPhase(s, t, i, p);
  }

  lemma AdvanceMeans(ts: seq<Task>, i: nat, p: Progress)
    requires i < |ts|
    ensures Advance(ts, i, p) == ts[i := ts[i].(progress := p)]
  {
  }

  lemma WorkerPhase(s: Server, t: Server, i: nat, p: Progress)
    requires PhaseOk(s) && PendingExact(s) && i < |s.tasks| && s.tasks[i].progress != Gone
    requires t.tasks == s.tasks[i := s.tasks[i].(progress := p)] && t.reactor == s.reactor && t.list == s.list
    requires t.phase == s.phase && t.calm == s.calm && t.touched == (s.touched || s.phase == Destroyed)
    requires SameEntries(s.sessions, t.sessions)
    requires t.pending == s.pending - One(p == Gone)
    ensures PhaseOk(t) && PendingExact(t)
  {
    hide Running, Val;
    UpdateTask(s.tasks, i, s.tasks[i].(progress := p), 0);
    assert forall e: nat :: IsListed(t.sessions, e) ==> IsListed(s.sessions, e);
  }

  lemma WorkerHolds(s: Server, i: nat)
    requires Inv(s) && i < |s.tasks|
    ensures HeldConn(s, s.tasks[i].conn) >= Holds(s.tasks[i], s.tasks[i].conn)
    ensures s.tasks[i].entry.Some? ==>
              HeldEntry(s, s.tasks[i].entry.value) >= HoldsEntry(s.tasks[i], s.tasks[i].entry.value)
  {
    hide TaskRefs, TaskEntryRefs, Running, ReactorRefs, ReactorEntryRefs, Holds, HoldsEntry, Sound, ConnCounts,
         EntryCounts, Registry, Subscriptions, ReactorOk, PhaseOk;
    UpdateTask(s.tasks, i, s.tasks[i], s.tasks[i].conn);
    if s.tasks[i].entry.Some? {
      UpdateTask(s.tasks, i, s.tasks[i], s.tasks[i].entry.value);
    }
  }

  lemma WorkerReplyKeeps(s: Server, i: nat)
    requires Inv(s) && Enabled(s, WorkerReply(i))
    ensures Inv(Apply(s, WorkerReply(i)))
  {
    hide TaskRefs, TaskEntryRefs, Running, Val, Refs, Ref, Unref, Sound, Registry, Subscriptions, ReactorOk, PhaseOk,
         IsOpen, IsListed, HeldConn, HeldEntry;
    WorkerHolds(s, i);
    assert Refs(s.conns, s.tasks[i].conn) == One(IsOpen(s.conns, s.tasks[i].conn)) + HeldConn(s, s.tasks[i].conn);
    RefEffect(s.conns, s.tasks[i].conn);
    WorkerKeeps(s, Apply(s, WorkerReply(i)), i, Sending);
  }

  lemma WorkerSilentKeeps(s: Server, i: nat)
    requires Inv(s) && Enabled(s, WorkerSilent(i))
    ensures Inv(Apply(s, WorkerSilent(i)))
  {
    hide TaskRefs, TaskEntryRefs, Running, Val, Refs, Ref, Unref, Sound, Registry, Subscriptions, ReactorOk, PhaseOk,
         IsOpen, IsListed, HeldConn, HeldEntry;
    WorkerKeeps(s, Apply(s, WorkerSilent(i)), i, Replied);
  }

  lemma WorkerPushKeeps(s: Server, i: nat)
    requires Inv(s) && Enabled(s, WorkerPush(i))
    ensures Inv(Apply(s, WorkerPush(i)))
  {
    hide TaskRefs, TaskEntryRefs, Running, Val, Refs, Ref, Unref, Sound, Registry, Subscriptions, ReactorOk, PhaseOk,
         IsOpen, IsListed, HeldConn, HeldEntry;
    WorkerKeeps(s, Apply(s, WorkerPush(i)), i, Replied);
  }

  lemma WorkerDropConnKeeps(s: Server, i: nat)
    requires Inv(s) && Enabled(s, WorkerDropConn(i))
    ensures Inv(Apply(s, WorkerDropConn(i)))
  {
    hide TaskRefs, TaskEntryRefs, Running, Val, Refs, Ref, Unref, Sound, Registry, Subscriptions, ReactorOk, PhaseOk,
         IsOpen, IsListed, HeldConn, HeldEntry;
    WorkerHolds(s, i);
    LetGoConn(s, s.tasks[i].conn);
    WorkerKeeps(s, Apply(s, WorkerDropConn(i)), i, ConnReleased);
  }

  lemma WorkerDropEntryKeeps(s: Server, i: nat)
    requires Inv(s) && Enabled(s, WorkerDropEntry(i))
    ensures Inv(Apply(s, WorkerDropEntry(i)))
  {
    hide TaskRefs, TaskEntryRefs, Running, Val, Refs, Ref, Unref, Sound, Registry, Subscriptions, ReactorOk, PhaseOk,
         IsOpen, IsListed, HeldConn, HeldEntry;
    WorkerHolds(s, i);
    if s.tasks[i].entry.Some? {
      LetGoEntry(s, s.tasks[i].entry.value);
    }
    WorkerKeeps(s, Apply(s, WorkerDropEntry(i)), i, EntryReleased);
  }

  lemma WorkerFinishKeeps(s: Server, i: nat)
    requires Inv(s) && Enabled(s, WorkerFinish(i))
    ensures Inv(Apply(s, WorkerFinish(i)))
  {
    hide TaskRefs, TaskEntryRefs, Running, Val, Refs, Ref, Unref, Sound, Registry, Subscriptions, ReactorOk, PhaseOk,
         IsOpen, IsListed, HeldConn, HeldEntry;
    WorkerKeeps(s, Apply(s, WorkerFinish(i)), i, Gone);
  }

  // Reactor steps that leave open connections open and listed sessions listed.

  lemma ReactorKeeps(s: Server, t: Server)
    requires Inv(s) && Quiet(s.reactor) && Quiet(t.reactor)
    requires t.list == s.list && t.count == s.count && t.tasks == s.tasks
    requires Sound(t.conns) && SameConns(s.conns, t.conns) && Sound(t.sessions) && SameEntries(s.sessions, t.sessions)
    requires forall x: nat :: Refs(t.conns, x) - multiset(t.queue)[x] - ReactorRefs(t.reactor, x)
                           == Refs(s.conns, x) - multiset(s.queue)[x] - ReactorRefs(s.reactor, x)
    requires forall x: nat :: Refs(t.sessions, x) - ReactorEntryRefs(t.reactor, x)
                           == Refs(s.sessions, x) - ReactorEntryRefs(s.reactor, x)
    requires ReactorOk(t) && PendingExact(t) && PhaseOk(t)
    ensures Inv(t)
  {
    hide TaskRefs, TaskEntryRefs, Running, Val, Refs, Sound, Registry, Subscriptions, ReactorOk, PhaseOk, IsOpen,
         IsListed, ReactorRefs, ReactorEntryRefs;
    OpenSame(s.conns, t.conns);
    StreamsSame(s, t.sessions);
    forall x: nat
      ensures Refs(t.conns, x) == One(IsOpen(t.conns, x)) + HeldConn(t, x)
      ensures Refs(t.sessions, x) == One(IsListed(t.sessions, x)) + HeldEntry(t, x)
    {
      assert Refs(s.conns, x) == One(IsOpen(s.conns, x)) + HeldConn(s, x);
      assert Refs(s.sessions, x) == One(IsListed(s.sessions, x)) + HeldEntry(s, x);
    }
    QuietKeeps(s, t);
  }

  lemma OpenHasRefs(s: Server, c: nat)
    requires Sound(s.conns) && IsOpen(s.conns, c)
    ensures Refs(s.conns, c) > 0
  {
    RefsMeanExistence(s.conns, c);
  }

  lemma ListedHasRefs(s: Server, e: nat)
    requires Sound(s.sessions) && IsListed(s.sessions, e)
    ensures Refs(s.sessions, e) > 0
  {
    RefsMeanExistence(s.sessions, e);
  }

  lemma StartReplyKeeps(s: Server, c: nat, fatal: bool)
    requires Inv(s) && Enabled(s, StartReply(c, fatal))
    ensures Inv(Apply(s, StartReply(c, fatal)))
  {
    hide TaskRefs, TaskEntryRefs, Running, Val, Refs, Ref, Unref, Put, Alloc, Sound, Registry, Subscriptions,
         HeldConn, HeldEntry;
    var t := Apply(s, StartReply(c, fatal));
    OpenHasRefs(s, c);
    RefEffect(s.conns, c);
    ReactorKeeps(s, t);
  }

  lemma StartWsPostKeeps(s: Server, c: nat)
    requires Inv(s) && Enabled(s, StartWsPost(c))
    ensures Inv(Apply(s, StartWsPost(c)))
  {
    hide TaskRefs, TaskEntryRefs, Running, Val, Refs, Ref, Unref, Put, Alloc, Sound, Registry, Subscriptions,
         HeldConn, HeldEntry;
    var t := Apply(s, StartWsPost(c));
    OpenHasRefs(s, c);
    RefEffect(s.conns, c);
    ReactorKeeps(s, t);
  }

  lemma FindForPostKeeps(s: Server, c: nat, e: nat)
    requires Inv(s) && Enabled(s, FindForPost(c, e))
    ensures Inv(Apply(s, FindForPost(c, e)))
  {
    hide TaskRefs, TaskEntryRefs, Running, Val, Refs, Ref, Unref, Put, Alloc, Sound, Registry, Subscriptions,
         HeldConn, HeldEntry;
    var t := Apply(s, FindForPost(c, e));
    ListedHasRefs(s, e);
    RefEffect(s.sessions, e);
    ReactorKeeps(s, t);
  }

  lemma FindForSseKeeps(s: Server, c: nat, e: nat)
    requires Inv(s) && Enabled(s, FindForSse(c, e))
    ensures Inv(Apply(s, FindForSse(c, e)))
  {
    hide TaskRefs, TaskEntryRefs, Running, Val, Refs, Ref, Unref, Put, Alloc, Sound, Registry, Subscriptions,
         HeldConn, HeldEntry;
    var t := Apply(s, FindForSse(c, e));
    ListedHasRefs(s, e);
    RefEffect(s.sessions, e);
    ReactorKeeps(s, t);
  }

  lemma StartCloseKeeps(s: Server, c: nat)
    requires Inv(s) && Enabled(s, StartClose(c))
    ensures Inv(Apply(s, StartClose(c)))
  {
    hide TaskRefs, TaskEntryRefs, Running, Val, Refs, Ref, Unref, Put, Alloc, Sound, Registry, Subscriptions,
         HeldConn, HeldEntry;
    var t := Apply(s, StartClose(c));
    ReactorKeeps(s, t);
  }

  lemma StartDrainKeeps(s: Server)
    requires Inv(s) && Enabled(s, StartDrain)
    ensures Inv(Apply(s, StartDrain))
  {
    hide TaskRefs, TaskEntryRefs, Running, Val, Refs, Ref, Unref, Put, Alloc, Sound, Registry, Subscriptions,
         HeldConn, HeldEntry;
    var t := Apply(s, StartDrain);
    ReactorKeeps(s, t);
  }

  lemma StartReapKeeps(s: Server)
    requires Inv(s) && Enabled(s, StartReap)
    ensures Inv(Apply(s, StartReap))
  {
    hide TaskRefs, TaskEntryRefs, Running, Val, Refs, Ref, Unref, Put, Alloc, Sound, Registry, Subscriptions,
         HeldConn, HeldEntry;
    var t := Apply(s, StartReap);
    ReactorKeeps(s, t);
  }

  lemma StartClosingKeeps(s: Server)
    requires Inv(s) && Enabled(s, StartClosing)
    ensures Inv(Apply(s, StartClosing))
  {
    hide TaskRefs, TaskEntryRefs, Running, Val, Refs, Ref, Unref, Put, Alloc, Sound, Registry, Subscriptions,
         HeldConn, HeldEntry;
    var t := Apply(s, StartClosing);
    ListIsOpen(s);
    ReactorKeeps(s, t);
  }

  lemma PushKeeps(s: Server)
    requires Inv(s) && Enabled(s, Push)
    ensures Inv(Apply(s, Push))
  {
    hide TaskRefs, TaskEntryRefs, Running, Val, Refs, Ref, Unref, Put, Alloc, Sound, Registry, Subscriptions,
         HeldConn, HeldEntry;
    var t := Apply(s, Push);
    ReactorKeeps(s, t);
  }

  lemma TakeRefKeeps(s: Server)
    requires Inv(s) && Enabled(s, TakeRef)
    ensures Inv(Apply(s, TakeRef))
  {
    hide TaskRefs, TaskEntryRefs, Running, Val, Refs, Ref, Unref, Put, Alloc, Sound, Registry, Subscriptions,
         HeldConn, HeldEntry;
    var t := Apply(s, TakeRef);
    ListedHasRefs(s, s.reactor.entry);
    RefEffect(s.sessions, s.reactor.entry);
    ReactorKeeps(s, t);
  }

  lemma RefForTaskKeeps(s: Server)
    requires Inv(s) && Enabled(s, RefForTask)
    ensures Inv(Apply(s, RefForTask))
  {
    hide TaskRefs, TaskEntryRefs, Running, Val, Refs, Ref, Unref, Put, Alloc, Sound, Registry, Subscriptions,
         HeldConn, HeldEntry;
    var t := Apply(s, RefForTask);
    OpenHasRefs(s, s.reactor.conn);
    RefEffect(s.conns, s.reactor.conn);
    ReactorKeeps(s, t);
  }

  lemma CountTaskKeeps(s: Server)
    requires Inv(s) && Enabled(s, CountTask)
    ensures Inv(Apply(s, CountTask))
  {
    hide TaskRefs, TaskEntryRefs, Running, Val, Refs, Ref, Unref, Put, Alloc, Sound, Registry, Subscriptions,
         HeldConn, HeldEntry;
    var t := Apply(s, CountTask);
    ReactorKeeps(s, t);
  }

  lemma ReleaseFoundKeeps(s: Server)
    requires Inv(s) && Enabled(s, ReleaseFound)
    ensures Inv(Apply(s, ReleaseFound))
  {
    hide TaskRefs, TaskEntryRefs, Running, Val, Refs, Ref, Unref, Put, Alloc, Sound, Registry, Subscriptions,
         HeldConn, HeldEntry;
    var t := Apply(s, ReleaseFound);
    ReactorHolds(s);
    LetGoEntry(s, s.reactor.entry);
    ReactorKeeps(s, t);
  }

  lemma DrainItemKeeps(s: Server)
    requires Inv(s) && Enabled(s, DrainItem)
    ensures Inv(Apply(s, DrainItem))
  {
    hide TaskRefs, TaskEntryRefs, Running, Val, Refs, Ref, Unref, Put, Alloc, Sound, Registry, Subscriptions,
         HeldConn, HeldEntry;
    var t := Apply(s, DrainItem);
    ReactorHolds(s);
    LetGoConn(s, s.reactor.items[0]);
    assert s.reactor.items == [s.reactor.items[0]] + s.reactor.items[1..];
    ReactorKeeps(s, t);
  }

  lemma DrainEndKeeps(s: Server)
    requires Inv(s) && Enabled(s, DrainEnd)
    ensures Inv(Apply(s, DrainEnd))
  {
    hide TaskRefs, TaskEntryRefs, Running, Val, Refs, Ref, Unref, Put, Alloc, Sound, Registry, Subscriptions,
         HeldConn, HeldEntry;
    var t := Apply(s, DrainEnd);
    ReactorKeeps(s, t);
  }

  lemma CloseEndKeeps(s: Server)
    requires Inv(s) && Enabled(s, CloseEnd)
    ensures Inv(Apply(s, CloseEnd))
  {
    hide TaskRefs, TaskEntryRefs, Running, Val, Refs, Ref, Unref, Put, Alloc, Sound, Registry, Subscriptions,
         HeldConn, HeldEntry;
    var t := Apply(s, CloseEnd);
    NonemptyHas(s.list);
    ReactorKeeps(s, t);
  }

  lemma TouchClosedKeeps(s: Server, again: bool)
    requires Inv(s) && Enabled(s, TouchClosed(again))
    ensures Inv(Apply(s, TouchClosed(again)))
  {
    hide TaskRefs, TaskEntryRefs, Running, Val, Refs, Ref, Unref, Put, Alloc, Sound, Registry, Subscriptions,
         HeldConn, HeldEntry;
    var t := Apply(s, TouchClosed(again));
    QueueHolds(s, s.reactor.touch.value);
    HeldExists(s, s.reactor.touch.value);
    ReactorKeeps(s, t);
  }

  lemma ReapUnrefKeeps(s: Server)
    requires Inv(s) && Enabled(s, ReapUnref)
    ensures Inv(Apply(s, ReapUnref))
  {
    hide TaskRefs, TaskEntryRefs, Running, Val, Refs, Ref, Unref, Put, Alloc, Sound, Registry, Subscriptions,
         HeldConn, HeldEntry;
    var t := Apply(s, ReapUnref);
    ReactorHolds(s);
    LetGoEntry(s, s.reactor.unlinked.value);
    StreamsSame(s, t.sessions);
    ReactorKeeps(s, t);
  }

  lemma ReapEndKeeps(s: Server)
    requires Inv(s) && Enabled(s, ReapEnd)
    ensures Inv(Apply(s, ReapEnd))
  {
    hide TaskRefs, TaskEntryRefs, Running, Val, Refs, Ref, Unref, Put, Alloc, Sound, Registry, Subscriptions,
         HeldConn, HeldEntry;
    var t := Apply(s, ReapEnd);
    ReactorKeeps(s, t);
  }

  lemma ListIsOpen(s: Server)
    requires Registry(s) && s.reactor.Idle?
    ensures Distinct(s.list) && forall i :: 0 <= i < |s.list| ==> IsOpen(s.conns, s.list[i])
  {
    forall i | 0 <= i < |s.list|
      ensures IsOpen(s.conns, s.list[i])
    {
      assert s.list[i] in s.list;
    }
  }

  lemma ReactorHolds(s: Server)
    ensures s.reactor.Subscribed? ==> HeldEntry(s, s.reactor.entry) > 0
    ensures s.reactor.Reaping? && s.reactor.unlinked.Some? ==> HeldEntry(s, s.reactor.unlinked.value) > 0
    ensures s.reactor.Draining? && s.reactor.items != [] ==> HeldConn(s, s.reactor.items[0]) > 0
    ensures s.reactor.Closing? && s.reactor.stage != Start && s.reactor.todo != [] ==> HeldConn(s, s.reactor.todo[0]) > 0
  {
    hide TaskRefs, TaskEntryRefs;
    if s.reactor.Draining? && s.reactor.items != [] {
      assert s.reactor.items[0] in multiset(s.reactor.items);
    }
  }

  lemma QueueHolds(s: Server, c: nat)
    requires c in s.queue
    ensures HeldConn(s, c) > 0
  {
    hide TaskRefs, ReactorRefs;
    assert c in multiset(s.queue);
  }

  lemma SubmitTaskKeeps(s: Server)
    requires Inv(s) && Enabled(s, SubmitTask)
    ensures Inv(Apply(s, SubmitTask))
  {
    hide TaskRefs, TaskEntryRefs, Running, Val, Refs, Sound, Registry, Subscriptions, IsOpen, IsListed;
    var t, w := Apply(s, SubmitTask), Task(s.reactor.conn, s.reactor.session, Working);
    forall x: nat
      ensures Refs(t.conns, x) == One(IsOpen(t.conns, x)) + HeldConn(t, x)
      ensures Refs(t.sessions, x) == One(IsListed(t.sessions, x)) + HeldEntry(t, x)
    {
      AppendTask(s.tasks, w, x);
      assert Refs(s.conns, x) == One(IsOpen(s.conns, x)) + HeldConn(s, x);
      assert Refs(s.sessions, x) == One(IsListed(s.sessions, x)) + HeldEntry(s, x);
    }
    AppendTask(s.tasks, w, 0);
    QuietKeeps(s, t);
  }

  // Steps that open, attach, close or unlist.

  /** The counts after a step, from what it changed. */
  lemma CountsKeep(s: Server, t: Server)
    requires ConnCounts(s) && EntryCounts(s) && t.tasks == s.tasks
    requires forall x: nat ::
               Refs(t.conns, x) - One(IsOpen(t.conns, x)) - multiset(t.queue)[x] - ReactorRefs(t.reactor, x)
               == Refs(s.conns, x) - One(IsOpen(s.conns, x)) - multiset(s.queue)[x] - ReactorRefs(s.reactor, x)
    requires forall x: nat :: Refs(t.sessions, x) - One(IsListed(t.sessions, x)) - ReactorEntryRefs(t.reactor, x)
                           == Refs(s.sessions, x) - One(IsListed(s.sessions, x)) - ReactorEntryRefs(s.reactor, x)
    ensures ConnCounts(t) && EntryCounts(t)
  {
    hide TaskRefs, TaskEntryRefs, Refs, IsOpen, IsListed, ReactorRefs, ReactorEntryRefs;
    forall x: nat
      ensures Refs(t.conns, x) == One(IsOpen(t.conns, x)) + HeldConn(t, x)
      ensures Refs(t.sessions, x) == One(IsListed(t.sessions, x)) + HeldEntry(t, x)
    {
      assert Refs(s.conns, x) == One(IsOpen(s.conns, x)) + HeldConn(s, x);
      assert Refs(s.sessions, x) == One(IsListed(s.sessions, x)) + HeldEntry(s, x);
    }
  }

  lemma PutEntry(p: Pool<Entry>, e: nat, v: Entry)
    requires Sound(p) && Refs(p, e) > 0
    ensures Sound(Put(p, e, v)) && forall f: nat :: Refs(Put(p, e, v), f) == Refs(p, f)
    ensures forall f: nat :: IsListed(Put(p, e, v), f) == if f == e then v.listed else IsListed(p, f)
    ensures forall f: nat :: StreamOf(Put(p, e, v), f) == if f == e then v.sse else StreamOf(p, f)
  {
    hide Put, Refs, Val, Sound;
    PutEffect(p, e, v);
  }

  lemma AllocEntry(p: Pool<Entry>)
    requires Sound(p)
    ensures var q := Alloc(p, Entry(true, None));
            && Sound(q) && !IsListed(p, p.next)
            && (forall f: nat :: Refs(q, f) == Refs(p, f) + One(f == p.next))
            && (forall f: nat :: IsListed(q, f) == (f == p.next || IsListed(p, f)))
            && (forall f: nat :: StreamOf(q, f) == StreamOf(p, f))
  {
    hide Alloc, Refs, Val, Sound;
    AllocEffect(p, Entry(true, None));
  }

  lemma AcceptKeeps(s: Server)
    requires Inv(s) && Enabled(s, Accept)
    ensures Inv(Apply(s, Accept))
  {
    hide TaskRefs, TaskEntryRefs, Running, Val, Refs, Alloc, Sound, HeldConn, HeldEntry;
    var t, c := Apply(s, Accept), s.conns.next;
    AllocEffect(s.conns, Conn(false, Http));
    CountsKeep(s, t);
    assert c !in s.list;
    assert Distinct(t.list);
  }

  lemma UpgradeKeeps(s: Server, c: nat)
    requires Inv(s) && Enabled(s, Upgrade(c))
    ensures Inv(Apply(s, Upgrade(c)))
  {
    hide TaskRefs, TaskEntryRefs, Running, Val, Refs, Put, Sound, HeldConn, HeldEntry;
    var t := Apply(s, Upgrade(c));
    OpenHasRefs(s, c);
    PutEffect(s.conns, c, Conn(false, Ws));
    CountsKeep(s, t);
  }

  lemma CreateSessionKeeps(s: Server, c: nat)
    requires Inv(s) && Enabled(s, CreateSession(c))
    ensures Inv(Apply(s, CreateSession(c)))
  {
    hide TaskRefs, TaskEntryRefs, Running, Val, Refs, Alloc, Sound, HeldConn, HeldEntry, StreamOf, IsListed;
    var t := Apply(s, CreateSession(c));
    AllocEntry(s.sessions);
    CountsKeep(s, t);
  }

  lemma AttachKeeps(s: Server)
    requires Inv(s) && Enabled(s, Attach)
    ensures Inv(Apply(s, Attach))
  {
    hide TaskRefs, TaskEntryRefs, Running, Val, Refs, Put, Sound, HeldConn, HeldEntry, StreamOf, IsListed;
    var t, c, e := Apply(s, Attach), s.reactor.conn, s.reactor.entry;
    OpenHasRefs(s, c);
    ListedHasRefs(s, e);
    PutEffect(s.conns, c, Conn(false, Sse));
    PutEntry(s.sessions, e, Entry(true, Some(c)));
    CountsKeep(s, t);
  }

  lemma MarkKeeps(s: Server)
    requires Inv(s) && Enabled(s, Mark)
    ensures Inv(Apply(s, Mark))
  {
    hide TaskRefs, TaskEntryRefs, Running, Val, Refs, Put, Sound, HeldConn, HeldEntry, Apply, Enabled, Registry,
         Subscriptions, ReactorOk, PhaseOk;
    MarkMeans(s);
    var c := s.reactor.todo[0];
    if c in s.queue {
      QueueHolds(s, c);
      HeldExists(s, c);
    }
    if IsOpen(s.conns, c) {
      MarkOpenKeeps(s);
    } else {
      MarkAgainKeeps(s);
    }
  }

  lemma MarkMeans(s: Server)
    requires Enabled(s, Mark)
    ensures ClosingAt(s, Start) && Apply(s, Mark) == MarkStep(s)
    ensures ReactorOk(s) ==> IsOpen(s.conns, s.reactor.todo[0]) || s.reactor.todo[0] in s.queue
  {
  }

  lemma MarkAgainKeeps(s: Server)
    requires Inv(s) && ClosingAt(s, Start)
    requires Val(s.conns, s.reactor.todo[0]).Some? && Val(s.conns, s.reactor.todo[0]).value.detached
    ensures Inv(MarkStep(s))
  {
    hide TaskRefs, TaskEntryRefs, Running, Val, Refs, Sound, Registry, Subscriptions, HeldConn, HeldEntry;
    var t := MarkStep(s);
    assert s.phase == ClosingAll ==> forall c :: c in s.list ==> c in t.reactor.todo by {
      ListedNotFirst(s);
    }
    ReactorKeeps(s, t);
  }

  lemma ListedNotFirst(s: Server)
    requires Registry(s) && ClosingAt(s, Start) && !IsOpen(s.conns, s.reactor.todo[0])
    ensures forall c :: c in s.list && c in s.reactor.todo ==> c in s.reactor.todo[1..]
  {
  }

  lemma MarkOpenKeeps(s: Server)
    requires Inv(s) && ClosingAt(s, Start) && IsOpen(s.conns, s.reactor.todo[0])
    ensures Inv(MarkStep(s))
  {
    hide TaskRefs, TaskEntryRefs, Running, Val, Refs, Put, Sound, HeldConn, HeldEntry;
    var t, c := MarkStep(s), s.reactor.todo[0];
    OpenHasRefs(s, c);
    PutEffect(s.conns, c, Val(s.conns, c).value.(detached := true));
    CountsKeep(s, t);
  }

  lemma ClearKeeps(s: Server, found: Option<nat>)
    requires Inv(s) && Enabled(s, Clear(found))
    ensures Inv(Apply(s, Clear(found)))
  {
    hide TaskRefs, TaskEntryRefs, Running, Val, Refs, Put, Sound, HeldConn, HeldEntry, StreamOf, IsListed;
    var t, c := Apply(s, Clear(found)), s.reactor.todo[0];
    ReactorHolds(s);
    HeldExists(s, c);
    if found.Some? {
      assert IsListed(s.sessions, found.value);
      ListedHasRefs(s, found.value);
      PutEntry(s.sessions, found.value, Entry(true, None));
    }
    CountsKeep(s, t);
  }

  lemma {:induction false} WithoutOne(q: seq<nat>, c: nat)
    requires Distinct(q)
    ensures Distinct(Without(q, c)) && |Without(q, c)| == |q| - One(c in q)
  {
    if q != [] {
      var rest := q[1..];
      assert forall j :: 0 <= j < |rest| ==> rest[j] == q[j + 1];
      WithoutOne(rest, c);
      assert q == [q[0]] + rest;
      assert q[0] !in rest;
    }
  }

  lemma NonemptyHas(q: seq<nat>)
    ensures q != [] ==> exists c :: c in q
  {
    if q != [] {
      assert q[0] in q;
    }
  }

  lemma UnlinkKeeps(s: Server)
    requires Inv(s) && Enabled(s, Unlink)
    ensures Inv(Apply(s, Unlink))
  {
    hide TaskRefs, TaskEntryRefs, Running, Val, Refs, Sound, HeldConn, HeldEntry, Without;
    var t, c := Apply(s, Unlink), s.reactor.todo[0];
    WithoutOne(s.list, c);
    assert Leaving(s.reactor, c);
    CountsKeep(s, t);
  }

  lemma DropBaseKeeps(s: Server)
    requires Inv(s) && Enabled(s, DropBase)
    ensures Inv(Apply(s, DropBase))
  {
    hide TaskRefs, TaskEntryRefs, Running, Val, Refs, Unref, Sound, HeldConn, HeldEntry;
    var t, c := Apply(s, DropBase), s.reactor.todo[0];
    ReactorHolds(s);
    LetGoConn(s, c);
    OpenSame(s.conns, t.conns);
    CountsKeep(s, t);
  }

  lemma ReapUnlinkKeeps(s: Server, e: nat)
    requires Inv(s) && Enabled(s, ReapUnlink(e))
    ensures Inv(Apply(s, ReapUnlink(e)))
  {
    hide TaskRefs, TaskEntryRefs, Running, Val, Refs, Put, Sound, HeldConn, HeldEntry, StreamOf, IsListed;
    var t := Apply(s, ReapUnlink(e));
    ListedHasRefs(s, e);
    PutEntry(s.sessions, e, Entry(false, None));
    CountsKeep(s, t);
  }

  lemma AwaitTasksKeeps(s: Server)
    requires Inv(s) && Enabled(s, AwaitTasks)
    ensures Inv(Apply(s, AwaitTasks))
  {
    hide TaskRefs, TaskEntryRefs, Running, Val, Refs, Sound;
    CountsKeep(s, Apply(s, AwaitTasks));
  }

  /** Every step keeps the invariant. */
  lemma StepKeeps(s: Server, step: Step)
    requires Inv(s) && Enabled(s, step)
    ensures Inv(Apply(s, step))
  {
    hide Inv, Enabled, Apply;
    match step
    case Accept => AcceptKeeps(s);
    case StartReply(c, fatal) => StartReplyKeeps(s, c, fatal);
    case Upgrade(c) => UpgradeKeeps(s, c);
    case CreateSession(c) => CreateSessionKeeps(s, c);
    case FindForPost(c, e) => FindForPostKeeps(s, c, e);
    case FindForSse(c, e) => FindForSseKeeps(s, c, e);
    case StartWsPost(c) => StartWsPostKeeps(s, c);
    case StartClose(c) => StartCloseKeeps(s, c);
    case StartDrain => StartDrainKeeps(s);
    case StartReap => StartReapKeeps(s);
    case StartClosing => StartClosingKeeps(s);
    case Push => PushKeeps(s);
    case TakeRef => TakeRefKeeps(s);
    case RefForTask => RefForTaskKeeps(s);
    case CountTask => CountTaskKeeps(s);
    case SubmitTask => SubmitTaskKeeps(s);
    case Attach => AttachKeeps(s);
    case ReleaseFound => ReleaseFoundKeeps(s);
    case DrainItem => DrainItemKeeps(s);
    case DrainEnd => DrainEndKeeps(s);
    case Mark => MarkKeeps(s);
    case Clear(found) => ClearKeeps(s, found);
    case Unlink => UnlinkKeeps(s);
    case DropBase => DropBaseKeeps(s);
    case CloseEnd => CloseEndKeeps(s);
    case TouchClosed(again) => TouchClosedKeeps(s, again);
    case ReapUnlink(e) => ReapUnlinkKeeps(s, e);
    case ReapUnref => ReapUnrefKeeps(s);
    case ReapEnd => ReapEndKeeps(s);
    case AwaitTasks => AwaitTasksKeeps(s);
    case WorkerReply(i) => WorkerReplyKeeps(s, i);
    case WorkerSilent(i) => WorkerSilentKeeps(s, i);
    case WorkerPush(i) => WorkerPushKeeps(s, i);
    case WorkerDropConn(i) => WorkerDropConnKeeps(s, i);
    case WorkerDropEntry(i) => WorkerDropEntryKeeps(s, i);
    case WorkerFinish(i) => WorkerFinishKeeps(s, i);
  }
}
