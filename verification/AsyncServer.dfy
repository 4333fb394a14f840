/**
  Connection and session lifetimes in the async server, as a transition
  system. The reactor thread and any number of worker threads interleave; one
  step is one atomic counter operation, one critical section, or one access to
  shared structures.
 */
module AsyncServer {
  import opened Bytes
  import opened RefCounts

  datatype Kind = Http | Sse | Ws

  datatype Conn = Conn(detached: bool, kind: Kind)

  datatype Entry = Entry(listed: bool, sse: Option<nat>)

  /** Where a worker is: each stage names what it has done last. */
  datatype Progress = Working | Sending | Replied | ConnReleased | EntryReleased | Gone

  datatype Task = Task(conn: nat, entry: Option<nat>, progress: Progress)

  /** How far closing the first connection of the list has come. */
  datatype Stage = Start | Marked | Cleared | Unlinked

  /** Where the reactor thread is. */
  datatype Reactor =
    | Idle
    | Replying(conn: nat, fatal: bool)
    | Creating(conn: nat, entry: nat)
    | Posting(conn: nat, entry: nat)
    | Subscribing(conn: nat, entry: nat)
    | Subscribed(conn: nat, entry: nat)
    | Referenced(conn: nat, session: Option<nat>)
    | Counted(conn: nat, session: Option<nat>)
    | Draining(items: seq<nat>)
    | Closing(todo: seq<nat>, stage: Stage, touch: Option<nat>)
    | Reaping(toClose: seq<nat>, unlinked: Option<nat>)

  /**
    Destruction waits until no task is pending, then until the reactor has left
    its loop, and then closes, drains and drops everything.
   */
  datatype Phase = Serving | Awaited | ClosingAll | DrainingAll | DroppingAll | Destroyed

  datatype Server = Server(
    conns: Pool<Conn>, sessions: Pool<Entry>, queue: seq<nat>, tasks: seq<Task>, reactor: Reactor,
    pending: int, list: seq<nat>, count: int, phase: Phase,
    // Whether no task was pending when closing began, and whether a worker used the server after it was freed.
    calm: bool, touched: bool)

  const REAP_BATCH: nat := 32

  const INITIAL: Server :=
    Server(Pool(map[], 0, multiset{}, false), Pool(map[], 0, multiset{}, false), [], [], Idle, 0, [], 0, Serving,
           false, false)

  predicate IsOpen(p: Pool<Conn>, c: nat) {
    Val(p, c).Some? && !Val(p, c).value.detached
  }

  predicate OpenAs(p: Pool<Conn>, c: nat, kind: Kind) {
    IsOpen(p, c) && Val(p, c).value.kind == kind
  }

  predicate IsListed(p: Pool<Entry>, e: nat) {
    Val(p, e).Some? && Val(p, e).value.listed
  }

  /** The event stream of a session. */
  function StreamOf(p: Pool<Entry>, e: nat): Option<nat> {
    if Val(p, e).Some? then Val(p, e).value.sse else None
  }

  function Without(q: seq<nat>, c: nat): (r: seq<nat>)
    ensures forall d :: d in r <==> d in q && d != c
  {
    if q == [] then [] else if q[0] == c then Without(q[1..], c) else [q[0]] + Without(q[1..], c)
  }

  datatype Step =
    // The reactor thread, from its loop.
    | Accept
    | StartReply(c: nat, fatal: bool)
    | Upgrade(c: nat)
    | CreateSession(c: nat)
    | FindForPost(c: nat, e: nat)
    | FindForSse(c: nat, e: nat)
    | StartWsPost(c: nat)
    | StartClose(c: nat)
    | StartDrain
    | StartReap
    | StartClosing
    // The reactor thread, in the middle of something.
    | Push
    | TakeRef
    | RefForTask
    | CountTask
    | SubmitTask
    | Attach
    | ReleaseFound
    | DrainItem
    | DrainEnd
    | Mark
    | Clear(found: Option<nat>)
    | Unlink
    | DropBase
    | CloseEnd
    | TouchClosed(again: bool)
    | ReapUnlink(e: nat)
    | ReapUnref
    | ReapEnd
    // The destroying thread's first wait.
    | AwaitTasks
    // A worker thread.
    | WorkerReply(i: nat)
    | WorkerSilent(i: nat)
    | WorkerPush(i: nat)
    | WorkerDropConn(i: nat)
    | WorkerDropEntry(i: nat)
    | WorkerFinish(i: nat)

  /** The last round of the reactor's loop may go on after the first wait. */
  predicate FromLoop(s: Server) {
    (s.phase == Serving || s.phase == Awaited) && s.reactor.Idle?
  }

  predicate At(s: Server, i: nat, p: Progress) {
    i < |s.tasks| && s.tasks[i].progress == p
  }

  predicate ClosingAt(s: Server, stage: Stage) {
    s.reactor.Closing? && s.reactor.stage == stage && s.reactor.todo != []
  }

  /** The session whose event stream is `c`, as the search through the list finds it. */
  ghost predicate Finds(p: Pool<Entry>, c: nat, found: Option<nat>) {
    match found
    case Some(e) => StreamOf(p, e) == Some(c)
    case None => forall e: nat :: StreamOf(p, e) != Some(c)
  }

  ghost predicate NoneListed(p: Pool<Entry>) {
    forall e: nat :: !IsListed(p, e)
  }

  ghost predicate Enabled(s: Server, step: Step) {
    match step
    case Accept => FromLoop(s)
    case StartReply(c, _) => FromLoop(s) && IsOpen(s.conns, c)
    case Upgrade(c) => FromLoop(s) && OpenAs(s.conns, c, Http)
    case CreateSession(c) => FromLoop(s) && OpenAs(s.conns, c, Http)
    case FindForPost(c, e) => FromLoop(s) && OpenAs(s.conns, c, Http) && IsListed(s.sessions, e)
    case FindForSse(c, e) => FromLoop(s) && OpenAs(s.conns, c, Http) && IsListed(s.sessions, e)
    case StartWsPost(c) => FromLoop(s) && OpenAs(s.conns, c, Ws)
    case StartClose(c) => FromLoop(s) && IsOpen(s.conns, c)
    case StartDrain => FromLoop(s)
    case StartReap => FromLoop(s)
    case StartClosing => s.phase == Awaited && s.reactor.Idle?
    case Push => s.reactor.Replying?
    case TakeRef => s.reactor.Creating?
    case RefForTask => s.reactor.Posting?
    case CountTask => s.reactor.Referenced?
    case SubmitTask => s.reactor.Counted?
    case Attach => s.reactor.Subscribing?
    case ReleaseFound => s.reactor.Subscribed?
    case DrainItem => s.reactor.Draining? && s.reactor.items != []
    case DrainEnd => s.reactor.Draining? && s.reactor.items == []
    case Mark => ClosingAt(s, Start)
    case Clear(found) => ClosingAt(s, Marked) && Finds(s.sessions, s.reactor.todo[0], found)
    case Unlink => ClosingAt(s, Cleared)
    case DropBase => ClosingAt(s, Unlinked)
    case CloseEnd => s.reactor.Closing? && s.reactor.todo == [] && s.reactor.touch.None?
    case TouchClosed(_) => s.reactor.Closing? && s.reactor.todo == [] && s.reactor.touch.Some?
    case ReapUnlink(e) =>
      s.reactor.Reaping? && s.reactor.unlinked.None? && |s.reactor.toClose| < REAP_BATCH && IsListed(s.sessions, e)
    case ReapUnref => s.reactor.Reaping? && s.reactor.unlinked.Some?
    case ReapEnd =>
      s.reactor.Reaping? && s.reactor.unlinked.None? && (s.phase == DroppingAll ==> NoneListed(s.sessions))
    case AwaitTasks => s.phase == Serving && s.pending == 0
    case WorkerReply(i) => At(s, i, Working)
    case WorkerSilent(i) => At(s, i, Working)
    case WorkerPush(i) => At(s, i, Sending)
    case WorkerDropConn(i) => At(s, i, Replied)
    case WorkerDropEntry(i) => At(s, i, ConnReleased)
    case WorkerFinish(i) => At(s, i, EntryReleased)
  }

  // The reactor's steps that do more than move along.

  function AcceptStep(s: Server): Server {
    s.(conns := Alloc(s.conns, Conn(false, Http)), list := [s.conns.next] + s.list, count := s.count + 1)
  }

  function UpgradeStep(s: Server, c: nat): Server {
    s.(conns := Put(s.conns, c, Conn(false, Ws)))
  }

  function CreateStep(s: Server, c: nat): Server {
    s.(sessions := Alloc(s.sessions, Entry(true, None)), reactor := Creating(c, s.sessions.next))
  }

  function PushStep(s: Server): Server
    requires s.reactor.Replying?
  {
    var c := s.reactor.conn;
    s.(queue := s.queue + [c], reactor := if s.reactor.fatal then Closing([c], Start, Some(c)) else Idle)
  }

  function AttachStep(s: Server): Server
    requires s.reactor.Subscribing?
  {
    var c, e := s.reactor.conn, s.reactor.entry;
    var detached := Val(s.conns, c).Some? && Val(s.conns, c).value.detached;
    s.(conns := Put(s.conns, c, Conn(detached, Sse)),
       sessions := Put(s.sessions, e, Entry(IsListed(s.sessions, e), Some(c))), reactor := Subscribed(c, e))
  }

  /** `atomic_exchange` on the detached flag: the second caller leaves at once. */
  function MarkStep(s: Server): Server
    requires ClosingAt(s, Start)
  {
    var r, c := s.reactor, s.reactor.todo[0];
    match Val(s.conns, c)
    case None => s.(conns := s.conns.(faulted := true))
    case Some(v) =>
      if v.detached then s.(reactor := r.(todo := r.todo[1..]))
      else s.(conns := Put(s.conns, c, v.(detached := true)), reactor := r.(stage := Marked))
  }

  function ClearStep(s: Server, found: Option<nat>): Server
    requires ClosingAt(s, Marked)
  {
    var c := s.reactor.todo[0];
    var t := s.(reactor := s.reactor.(stage := Cleared));
    match Val(s.conns, c)
    case None => t.(conns := s.conns.(faulted := true))
    case Some(v) =>
      if v.kind != Sse || found.None? then t
      else t.(sessions := Put(s.sessions, found.value, Entry(IsListed(s.sessions, found.value), None)))
  }

  function UnlinkStep(s: Server): Server
    requires ClosingAt(s, Cleared)
  {
    s.(list := Without(s.list, s.reactor.todo[0]), count := if s.count > 0 then s.count - 1 else s.count,
       reactor := s.reactor.(stage := Unlinked))
  }

  function DropBaseStep(s: Server): Server
    requires ClosingAt(s, Unlinked)
  {
    var r := s.reactor;
    s.(conns := Unref(s.conns, r.todo[0]), reactor := Closing(r.todo[1..], Start, r.touch))
  }

  function CloseEndStep(s: Server): Server {
    if s.phase == ClosingAll then s.(phase := DrainingAll, queue := [], reactor := Draining(s.queue))
    else s.(reactor := Idle)
  }

  /** After an error reply the handler still reads the connection it has closed, and may close it again. */
  function TouchStep(s: Server, again: bool): Server
    requires s.reactor.Closing? && s.reactor.touch.Some?
  {
    var c := s.reactor.touch.value;
    if Val(s.conns, c).None? then s.(conns := s.conns.(faulted := true))
    else s.(reactor := if again then Closing([c], Start, None) else Idle)
  }

  /** Takes an expired session off the list and remembers its event stream. */
  function ReapUnlinkStep(s: Server, e: nat): Server
    requires s.reactor.Reaping?
  {
    var sse := StreamOf(s.sessions, e);
    s.(sessions := Put(s.sessions, e, Entry(false, None)),
       reactor := Reaping(s.reactor.toClose + (if sse.Some? then [sse.value] else []), Some(e)))
  }

  function ReapEndStep(s: Server): Server
    requires s.reactor.Reaping?
  {
    if s.phase == DroppingAll then s.(phase := Destroyed, reactor := Idle)
    else s.(reactor := Closing(s.reactor.toClose, Start, None))
  }

  // A worker's steps.

  function Advance(ts: seq<Task>, i: nat, p: Progress): seq<Task>
    requires i < |ts|
  {
    ts[i := ts[i].(progress := p)]
  }

  /** Every step of a worker uses the server, which is freed at the end of destruction. */
  function Used(s: Server): Server {
    s.(touched := s.touched || s.phase == Destroyed)
  }

  function DropEntryStep(s: Server, i: nat): Server
    requires i < |s.tasks|
  {
    s.(sessions := if s.tasks[i].entry.Some? then Unref(s.sessions, s.tasks[i].entry.value) else s.sessions,
       tasks := Advance(s.tasks, i, EntryReleased))
  }

  ghost function Apply(s: Server, step: Step): Server
    requires Enabled(s, step)
  {
    match step
    case Accept => AcceptStep(s)
    case StartReply(c, fatal) => s.(conns := Ref(s.conns, c), reactor := Replying(c, fatal))
    case Upgrade(c) => UpgradeStep(s, c)
    case CreateSession(c) => CreateStep(s, c)
    case FindForPost(c, e) => s.(sessions := Ref(s.sessions, e), reactor := Posting(c, e))
    case FindForSse(c, e) => s.(sessions := Ref(s.sessions, e), reactor := Subscribing(c, e))
    case StartWsPost(c) => s.(conns := Ref(s.conns, c), reactor := Referenced(c, None))
    case StartClose(c) => s.(reactor := Closing([c], Start, None))
    case StartDrain => s.(queue := [], reactor := Draining(s.queue))
    case StartReap => s.(reactor := Reaping([], None))
    case StartClosing => s.(phase := ClosingAll, calm := s.pending == 0, reactor := Closing(s.list, Start, None))
    case Push => PushStep(s)
    case TakeRef =>
      s.(sessions := Ref(s.sessions, s.reactor.entry), reactor := Posting(s.reactor.conn, s.reactor.entry))
    case RefForTask =>
      s.(conns := Ref(s.conns, s.reactor.conn), reactor := Referenced(s.reactor.conn, Some(s.reactor.entry)))
    case CountTask => s.(pending := s.pending + 1, reactor := Counted(s.reactor.conn, s.reactor.session))
    case SubmitTask => s.(tasks := s.tasks + [Task(s.reactor.conn, s.reactor.session, Working)], reactor := Idle)
    case Attach => AttachStep(s)
    case ReleaseFound => s.(sessions := Unref(s.sessions, s.reactor.entry), reactor := Idle)
    case DrainItem =>
      s.(conns := Unref(s.conns, s.reactor.items[0]), reactor := Draining(s.reactor.items[1..]))
    case DrainEnd =>
      if s.phase == DrainingAll then s.(phase := DroppingAll, reactor := Reaping([], None)) else s.(reactor := Idle)
    case Mark => MarkStep(s)
    case Clear(found) => ClearStep(s, found)
    case Unlink => UnlinkStep(s)
    case DropBase => DropBaseStep(s)
    case CloseEnd => CloseEndStep(s)
    case TouchClosed(again) => TouchStep(s, again)
    case ReapUnlink(e) => ReapUnlinkStep(s, e)
    case ReapUnref =>
      s.(sessions := Unref(s.sessions, s.reactor.unlinked.value), reactor := Reaping(s.reactor.toClose, None))
    case ReapEnd => ReapEndStep(s)
    case AwaitTasks => s.(phase := Awaited)
    case WorkerReply(i) => Used(s.(conns := Ref(s.conns, s.tasks[i].conn), tasks := Advance(s.tasks, i, Sending)))
    case WorkerSilent(i) => Used(s.(tasks := Advance(s.tasks, i, Replied)))
    case WorkerPush(i) => Used(s.(queue := s.queue + [s.tasks[i].conn], tasks := Advance(s.tasks, i, Replied)))
    case WorkerDropConn(i) =>
      Used(s.(conns := Unref(s.conns, s.tasks[i].conn), tasks := Advance(s.tasks, i, ConnReleased)))
    case WorkerDropEntry(i) => Used(DropEntryStep(s, i))
    case WorkerFinish(i) => Used(s.(tasks := Advance(s.tasks, i, Gone), pending := s.pending - 1))
  }

  // Who holds references.

  function Holds(t: Task, c: nat): nat {
    if t.conn != c then 0
    else match t.progress
      case Sending => 2
      case Working => 1
      case Replied => 1
      case _ => 0
  }

  function HoldsEntry(t: Task, e: nat): nat {
    if t.entry != Some(e) || t.progress in {EntryReleased, Gone} then 0 else 1
  }

  function Unfinished(t: Task): nat {
    if t.progress == Gone then 0 else 1
  }

  /** References that tasks hold on a connection. */
  function TaskRefs(ts: seq<Task>, c: nat): nat {
    if ts == [] then 0 else TaskRefs(ts[..|ts| - 1], c) + Holds(ts[|ts| - 1], c)
  }

  function TaskEntryRefs(ts: seq<Task>, e: nat): nat {
    if ts == [] then 0 else TaskEntryRefs(ts[..|ts| - 1], e) + HoldsEntry(ts[|ts| - 1], e)
  }

  /** Tasks submitted and not yet finished. */
  function Running(ts: seq<Task>): nat {
    if ts == [] then 0 else Running(ts[..|ts| - 1]) + Unfinished(ts[|ts| - 1])
  }

  /** References the reactor thread holds on a connection in the middle of something. */
  function ReactorRefs(r: Reactor, c: nat): nat {
    match r
    case Replying(d, _) => One(d == c)
    case Referenced(d, _) => One(d == c)
    case Counted(d, _) => One(d == c)
    case Draining(items) => multiset(items)[c]
    case Closing(todo, stage, _) => One(stage != Start && todo != [] && todo[0] == c)
    case _ => 0
  }

  function ReactorEntryRefs(r: Reactor, e: nat): nat {
    match r
    case Posting(_, f) => One(f == e)
    case Subscribing(_, f) => One(f == e)
    case Subscribed(_, f) => One(f == e)
    case Referenced(_, f) => One(f == Some(e))
    case Counted(_, f) => One(f == Some(e))
    case Reaping(_, f) => One(f == Some(e))
    case _ => 0
  }

  /** References besides the base reference: queued responses, tasks, the reactor thread. */
  function HeldConn(s: Server, c: nat): nat {
    multiset(s.queue)[c] + TaskRefs(s.tasks, c) + ReactorRefs(s.reactor, c)
  }

  function HeldEntry(s: Server, e: nat): nat {
    TaskEntryRefs(s.tasks, e) + ReactorEntryRefs(s.reactor, e)
  }

  lemma {:induction false} UpdateTask(ts: seq<Task>, i: nat, t: Task, x: nat)
    requires i < |ts|
    ensures TaskRefs(ts[i := t], x) == TaskRefs(ts, x) - Holds(ts[i], x) + Holds(t, x)
    ensures TaskEntryRefs(ts[i := t], x) == TaskEntryRefs(ts, x) - HoldsEntry(ts[i], x) + HoldsEntry(t, x)
    ensures Running(ts[i := t]) == Running(ts) - Unfinished(ts[i]) + Unfinished(t)
    ensures TaskRefs(ts, x) >= Holds(ts[i], x) && TaskEntryRefs(ts, x) >= HoldsEntry(ts[i], x)
    ensures Running(ts) >= Unfinished(ts[i])
    decreases |ts|
  {
    hide Holds, HoldsEntry, Unfinished;
    var n := |ts| - 1;
    if i == n {
      assert ts[i := t][..n] == ts[..n];
    } else {
      UpdateTask(ts[..n], i, t, x);
      assert ts[i := t][..n] == ts[..n][i := t];
    }
  }

  lemma AppendTask(ts: seq<Task>, t: Task, x: nat)
    ensures TaskRefs(ts + [t], x) == TaskRefs(ts, x) + Holds(t, x)
    ensures TaskEntryRefs(ts + [t], x) == TaskEntryRefs(ts, x) + HoldsEntry(t, x)
    ensures Running(ts + [t]) == Running(ts) + Unfinished(t)
  {
    assert (ts + [t])[..|ts|] == ts;
  }

  lemma {:induction false} AllGone(ts: seq<Task>, x: nat)
    requires Running(ts) == 0
    ensures TaskRefs(ts, x) == 0 && TaskEntryRefs(ts, x) == 0
  {
    if ts != [] {
      AllGone(ts[..|ts| - 1], x);
    }
  }
}
