/**
  The reactor's registry: an array of entries kept sorted by descriptor, with
  the array handed to `poll` shifted along with it, while callbacks change both
  in the middle of a batch of events.
 */
module Reactor {
  import opened Blocks
  import opened Bytes

  type mask = bv32
  type flags = bv16

  const READ: mask := 1
  const WRITE: mask := 2
  const ERROR: mask := 4

  // Linux values.
  const POLLIN: flags := 0x0001
  const POLLOUT: flags := 0x0004
  const POLLERR: flags := 0x0008
  const POLLHUP: flags := 0x0010
  const POLLNVAL: flags := 0x0020
  const POLLRDHUP: flags := 0x2000

  datatype Entry = Entry(fd: int, events: mask, cb: nat, user: nat)
  datatype PollFd = PollFd(fd: int, events: flags, revents: flags)
  datatype Snapshot = Snapshot(fd: int, revents: flags)

  function ToPoll(events: mask): flags {
    (if events & READ != 0 then POLLIN | POLLRDHUP else 0) | (if events & WRITE != 0 then POLLOUT else 0)
  }

  /** What a callback is told: fired conditions, as far as they are registered; errors count as readable if need be. */
  function FromPoll(revents: flags, registered: mask): mask {
    (if revents & (POLLIN | POLLRDHUP) != 0 then registered & READ else 0)
    | (if revents & POLLOUT != 0 then registered & WRITE else 0)
    | (if revents & (POLLERR | POLLHUP | POLLNVAL) != 0 then
         if registered & ERROR != 0 then ERROR else registered & READ
       else 0)
  }

  lemma MaskInside(revents: flags, registered: mask)
    ensures FromPoll(revents, registered) & !registered == 0
  {
    var a: mask := if revents & (POLLIN | POLLRDHUP) != 0 then registered & READ else 0;
    var b: mask := if revents & POLLOUT != 0 then registered & WRITE else 0;
    var c: mask := if registered & ERROR != 0 then ERROR else registered & READ;
    ErrorInside(registered);
    assert a & !registered == 0 && b & !registered == 0 && c & !registered == 0;
  }

  lemma ErrorInside(registered: mask)
    ensures registered & ERROR != 0 ==> ERROR & !registered == 0
  {
  }

  /**
    Bit by bit, in Linux values: interest in reading asks for POLLIN and POLLRDHUP,
    interest in writing for POLLOUT, and nothing else is asked for.
   */
  lemma RequestedBits(events: mask)
    ensures var p := ToPoll(events);
            && (p & 0x0001 != 0 <==> events & 1 != 0) && (p & 0x2000 != 0 <==> events & 1 != 0)
            && (p & 0x0004 != 0 <==> events & 2 != 0)
            && p & 0xDFFA == 0
  {
    var a: flags := if events & READ != 0 then POLLIN | POLLRDHUP else 0;
    var b: flags := if events & WRITE != 0 then POLLOUT else 0;
    assert ToPoll(events) == a | b;
  }

  /**
    Bit by bit: a descriptor is reported writable on POLLOUT; in error on POLLERR, POLLHUP
    or POLLNVAL; readable on POLLIN or POLLRDHUP, and on errors that it did not register
    for; always as far as it registered.
   */
  lemma ReportedBits(revents: flags, registered: mask)
    ensures var m := FromPoll(revents, registered);
            && (m & 1 != 0 <==>
                registered & 1 != 0 && (revents & 0x2001 != 0 || (revents & 0x0038 != 0 && registered & 4 == 0)))
            && (m & 2 != 0 <==> registered & 2 != 0 && revents & 0x0004 != 0)
            && (m & 4 != 0 <==> registered & 4 != 0 && revents & 0x0038 != 0)
            && m & 0xFFFF_FFF8 == 0
  {
    var a: mask := if revents & (POLLIN | POLLRDHUP) != 0 then registered & READ else 0;
    var b: mask := if revents & POLLOUT != 0 then registered & WRITE else 0;
    var c: mask :=
      if revents & (POLLERR | POLLHUP | POLLNVAL) != 0 then
        if registered & ERROR != 0 then ERROR else registered & READ
      else 0;
    OrBits(a, b, c, registered);
    assert FromPoll(revents, registered) == a | b | c;
  }

  lemma OrBits(a: mask, b: mask, c: mask, registered: mask)
    requires (a == 0 || a == registered & READ) && (b == 0 || b == registered & WRITE)
    requires c == 0 || c == ERROR || c == registered & READ
    ensures var m := a | b | c;
            && (m & 1 != 0 <==> a != 0 || (c != 0 && c != ERROR))
            && (m & 2 != 0 <==> b != 0) && (m & 4 != 0 <==> c == ERROR) && m & 0xFFFF_FFF8 == 0
    ensures (registered & READ != 0 <==> registered & 1 != 0) && registered & READ != ERROR
  {
  }

  predicate ValidMask(events: mask) {
    events & !(READ | WRITE | ERROR) == 0
  }

  // The registry as a map.

  type Registry = map<int, Entry>

  /** A callback number of zero stands for NULL. */
  datatype Op = Add(fd: int, events: mask, cb: nat, user: nat) | Modify(fd: int, events: mask) | Remove(fd: int)

  datatype Status = Ok | InvalidArgument | AlreadyExists | NotFound

  function StatusOf(reg: Registry, wake: set<int>, op: Op): Status {
    match op
    case Add(fd, events, cb, _) =>
      if fd < 0 || cb == 0 || !ValidMask(events) || fd in wake then InvalidArgument
      else if fd in reg then AlreadyExists else Ok
    case Modify(fd, events) =>
      if fd < 0 || !ValidMask(events) then InvalidArgument else if fd !in reg then NotFound else Ok
    case Remove(fd) =>
      if fd < 0 then InvalidArgument else if fd !in reg then NotFound else Ok
  }

  /** What is accepted, in numbers: masks below 8, descriptors from 0 on, a callback, and not the wakeup descriptors. */
  lemma AcceptedExactly(reg: Registry, wake: set<int>, op: Op)
    ensures StatusOf(reg, wake, op) == Ok <==>
            && op.fd >= 0
            && (op.Add? || op.Modify? ==> op.events < 8)
            && (op.Add? ==> op.cb != 0 && op.fd !in wake)
            && (op.fd in reg <==> !op.Add?)
  {
    if !op.Remove? {
      MaskBits(op.events);
    }
  }

  lemma MaskBits(events: mask)
    ensures ValidMask(events) <==> events < 8
  {
  }

  function After(reg: Registry, wake: set<int>, op: Op): Registry {
    if StatusOf(reg, wake, op) != Ok then reg
    else match op
      case Add(fd, events, cb, user) => reg[fd := Entry(fd, events, cb, user)]
      case Modify(fd, events) => reg[fd := reg[fd].(events := events)]
      case Remove(fd) => reg - {fd}
  }

  function AfterAll(reg: Registry, wake: set<int>, ops: seq<Op>): Registry {
    if ops == [] then reg else After(AfterAll(reg, wake, ops[..|ops| - 1]), wake, ops[|ops| - 1])
  }

  predicate Sorted(s: seq<Entry>) {
    forall i, j :: 0 <= i < j < |s| ==> s[i].fd < s[j].fd
  }

  /** The sorted entries are exactly the registry. */
  ghost predicate Matches(s: seq<Entry>, reg: Registry) {
    && (forall i :: 0 <= i < |s| ==> s[i].fd in reg && reg[s[i].fd] == s[i])
    && (forall fd :: fd in reg ==> reg[fd] in s && reg[fd].fd == fd)
  }

  /** `t` is `s` with `e` put in at position `k`. */
  predicate Inserted(s: seq<Entry>, k: nat, e: Entry, t: seq<Entry>) {
    && k <= |s| && |t| == |s| + 1 && t[k] == e
    && (forall i :: 0 <= i < k ==> t[i] == s[i])
    && (forall i :: k <= i < |s| ==> t[i + 1] == s[i])
  }

  lemma InsertSorted(s: seq<Entry>, k: nat, e: Entry, t: seq<Entry>)
    requires Inserted(s, k, e, t) && Sorted(s)
    requires (forall i :: 0 <= i < k ==> s[i].fd < e.fd) && (forall i :: k <= i < |s| ==> e.fd < s[i].fd)
    ensures Sorted(t)
  {
    forall i, j | 0 <= i < j < |t|
      ensures t[i].fd < t[j].fd
    {
      assert i > k ==> t[i] == s[i - 1];
      assert j > k ==> t[j] == s[j - 1];
    }
  }

  lemma InsertMatches(s: seq<Entry>, k: nat, e: Entry, t: seq<Entry>, reg: Registry)
    requires Inserted(s, k, e, t) && Matches(s, reg) && e.fd !in reg
    ensures Matches(t, reg[e.fd := e])
  {
    var reg' := reg[e.fd := e];
    forall i | 0 <= i < |t|
      ensures t[i].fd in reg' && reg'[t[i].fd] == t[i]
    {
      assert i > k ==> t[i] == s[i - 1];
    }
    forall fd | fd in reg'
      ensures reg'[fd] in t && reg'[fd].fd == fd
    {
      if fd != e.fd {
        var i :| 0 <= i < |s| && s[i] == reg[fd];
        assert i >= k ==> t[i + 1] == s[i];
      }
    }
  }

  lemma DeleteSorted(s: seq<Entry>, k: nat, t: seq<Entry>)
    requires k < |s| && Inserted(t, k, s[k], s) && Sorted(s)
    ensures Sorted(t)
  {
    forall i, j | 0 <= i < j < |t|
      ensures t[i].fd < t[j].fd
    {
      assert i >= k ==> s[i + 1] == t[i];
      assert j >= k ==> s[j + 1] == t[j];
    }
  }

  lemma DeleteMatches(s: seq<Entry>, k: nat, t: seq<Entry>, reg: Registry)
    requires k < |s| && Inserted(t, k, s[k], s) && Sorted(s) && Matches(s, reg)
    ensures Matches(t, reg - {s[k].fd})
  {
    var reg' := reg - {s[k].fd};
    forall i | 0 <= i < |t|
      ensures t[i].fd in reg' && reg'[t[i].fd] == t[i]
    {
      assert i >= k ==> s[i + 1] == t[i];
    }
    forall fd | fd in reg'
      ensures reg'[fd] in t && reg'[fd].fd == fd
    {
      var i :| 0 <= i < |s| && s[i] == reg[fd];
      assert i > k ==> t[i - 1] == s[i];
    }
  }

  lemma UpdateMatches(s: seq<Entry>, k: nat, e: Entry, reg: Registry)
    requires Sorted(s) && Matches(s, reg) && k < |s| && e.fd == s[k].fd
    ensures Sorted(s[k := e]) && Matches(s[k := e], reg[e.fd := e])
  {
    var t := s[k := e];
    assert t[k] == e && forall i :: 0 <= i < |s| && i != k ==> t[i] == s[i];
    forall fd | fd in reg && fd != e.fd
      ensures reg[fd] in t
    {
      var i :| 0 <= i < |s| && s[i] == reg[fd];
      assert t[i] == s[i];
    }
  }

  // A batch of events.

  datatype Call = Call(fd: int, mask: mask, entry: Entry)

  /** A callback together with the registry it found. */
  datatype Moment = Moment(call: Call, found: Registry)

  /** What callbacks do to the registry and when the loop is told to stop. */
  datatype Script = Script(ops: nat -> seq<Op>, stops: nat -> bool)

  /** The callbacks of a batch and the registry they leave. */
  datatype Batch = Batch(moments: seq<Moment>, end: Registry)

  /** Dispatches the snapshots from the i-th on; `k` callbacks have run before. */
  function Dispatch(reg: Registry, wake: set<int>, snaps: seq<Snapshot>, sc: Script, i: nat, k: nat): Batch
    requires i <= |snaps|
    decreases |snaps| - i
  {
    if i == |snaps| || sc.stops(i) then Batch([], reg)
    else if !Due(reg, snaps[i]) then Dispatch(reg, wake, snaps, sc, i + 1, k)
    else
      var rest := Dispatch(AfterAll(reg, wake, sc.ops(k)), wake, snaps, sc, i + 1, k + 1);
      rest.(moments := [Moment(CallFor(reg, snaps[i]), reg)] + rest.moments)
  }

  predicate Due(reg: Registry, s: Snapshot) {
    s.fd in reg && FromPoll(s.revents, reg[s.fd].events) != 0
  }

  function CallFor(reg: Registry, s: Snapshot): Call
    requires s.fd in reg
  {
    Call(s.fd, FromPoll(s.revents, reg[s.fd].events), reg[s.fd])
  }

  predicate Ascending(snaps: seq<Snapshot>) {
    forall i, j :: 0 <= i < j < |snaps| ==> snaps[i].fd < snaps[j].fd
  }

  /** Registered as it is called, with a non-empty mask inside what it is registered for. */
  predicate Current(m: Moment) {
    && m.call.fd in m.found && m.found[m.call.fd] == m.call.entry
    && m.call.mask != 0 && m.call.mask & !m.call.entry.events == 0
  }

  /** The call answers a condition that fired. */
  predicate Answers(m: Moment, snaps: seq<Snapshot>, i: nat) {
    exists j :: i <= j < |snaps| && snaps[j].fd == m.call.fd
                && m.call.mask == FromPoll(snaps[j].revents, m.call.entry.events)
  }

  predicate WellDispatched(ms: seq<Moment>, snaps: seq<Snapshot>, i: nat) {
    && (forall a :: 0 <= a < |ms| ==> Current(ms[a]) && Answers(ms[a], snaps, i))
    && (forall a, b :: 0 <= a < b < |ms| ==> ms[a].call.fd < ms[b].call.fd)
  }

  /**
    Whatever earlier callbacks did: every callback goes to a descriptor that is
    registered at that moment, with the entry it is registered with and a
    non-empty mask inside the events it is registered for, answers a condition
    that fired, and each descriptor is called at most once, in ascending order.
   */
  lemma {:induction false} CallsAreCurrent(reg: Registry, wake: set<int>, snaps: seq<Snapshot>, sc: Script,
                                           i: nat, k: nat)
    requires i <= |snaps| && Ascending(snaps)
    ensures WellDispatched(Dispatch(reg, wake, snaps, sc, i, k).moments, snaps, i)
    decreases |snaps| - i
  {
    hide FromPoll, AfterAll;
    if i == |snaps| || sc.stops(i) {
    } else if !Due(reg, snaps[i]) {
      CallsAreCurrent(reg, wake, snaps, sc, i + 1, k);
      LaterAnswers(Dispatch(reg, wake, snaps, sc, i + 1, k).moments, snaps, i);
    } else {
      var reg' := AfterAll(reg, wake, sc.ops(k));
      CallsAreCurrent(reg', wake, snaps, sc, i + 1, k + 1);
      LaterAnswers(Dispatch(reg', wake, snaps, sc, i + 1, k + 1).moments, snaps, i);
      FirstCall(reg, snaps, i);
    }
  }

  lemma FirstCall(reg: Registry, snaps: seq<Snapshot>, i: nat)
    requires i < |snaps| && Due(reg, snaps[i])
    ensures var m := Moment(CallFor(reg, snaps[i]), reg); Current(m) && Answers(m, snaps, i)
  {
    hide FromPoll;
    MaskInside(snaps[i].revents, reg[snaps[i].fd].events);
  }

  lemma LaterAnswers(ms: seq<Moment>, snaps: seq<Snapshot>, i: nat)
    requires i < |snaps| && Ascending(snaps) && forall a :: 0 <= a < |ms| ==> Answers(ms[a], snaps, i + 1)
    ensures forall a :: 0 <= a < |ms| ==> Answers(ms[a], snaps, i) && snaps[i].fd < ms[a].call.fd
  {
    hide FromPoll;
    forall a | 0 <= a < |ms|
      ensures Answers(ms[a], snaps, i) && snaps[i].fd < ms[a].call.fd
    {
      assert Answers(ms[a], snaps, i + 1);
    }
  }

  /** The callbacks due in a registry that does not change. */
  function AllDue(reg: Registry, snaps: seq<Snapshot>, i: nat): seq<Call>
    requires i <= |snaps|
    decreases |snaps| - i
  {
    if i == |snaps| then []
    else if Due(reg, snaps[i]) then [CallFor(reg, snaps[i])] + AllDue(reg, snaps, i + 1)
    else AllDue(reg, snaps, i + 1)
  }

  function CallsOf(ms: seq<Moment>): seq<Call> {
    if ms == [] then [] else [ms[0].call] + CallsOf(ms[1..])
  }

  /** If no callback changes the registry and nothing stops the loop, nothing that is due is skipped. */
  lemma {:induction false} NothingSkipped(reg: Registry, wake: set<int>, snaps: seq<Snapshot>, sc: Script,
                                          i: nat, k: nat)
    requires i <= |snaps| && (forall n :: !sc.stops(n)) && forall n :: AfterAll(reg, wake, sc.ops(n)) == reg
    ensures CallsOf(Dispatch(reg, wake, snaps, sc, i, k).moments) == AllDue(reg, snaps, i)
    ensures Dispatch(reg, wake, snaps, sc, i, k).end == reg
    decreases |snaps| - i
  {
    hide FromPoll, AfterAll;
    if i < |snaps| {
      if Due(reg, snaps[i]) {
        NothingSkipped(reg, wake, snaps, sc, i + 1, k + 1);
        var rest := Dispatch(reg, wake, snaps, sc, i + 1, k + 1).moments;
        assert ([Moment(CallFor(reg, snaps[i]), reg)] + rest)[1..] == rest;
      } else {
        NothingSkipped(reg, wake, snaps, sc, i + 1, k);
      }
    }
  }

  // The arrays.

  /** Makes room at a position by shifting the rest to the right. */
  method InsertSlot<T>(a: array<T>, at: nat, n: nat, x: T)
    requires at <= n < a.Length
    modifies a
    ensures a[..n + 1] == old(a[..at]) + [x] + old(a[at..n])
  {
    forall i | at < i <= n {
      a[i] := a[i - 1];
    }
    a[at] := x;
  }

  /** Closes the gap at a position by shifting the rest to the left. */
  method RemoveSlot<T>(a: array<T>, at: nat, n: nat)
    requires at < n <= a.Length
    modifies a
    ensures a[..n - 1] == old(a[..at]) + old(a[at + 1..n])
  {
    forall i | at <= i < n - 1 {
      a[i] := a[i + 1];
    }
  }

  /** The poll array lists the same descriptors with the same events. */
  predicate Aligned(es: seq<Entry>, ps: seq<PollFd>) {
    |ps| == |es| && forall i :: 0 <= i < |es| ==> ps[i].fd == es[i].fd && ps[i].events == ToPoll(es[i].events)
  }

  class Poller {
    var entries: array<Entry>
    /** Slot 0 belongs to the wakeup descriptor. */
    var polls: array<PollFd>
    var snapshots: array<Snapshot>
    var count: nat
    var capacity: nat
    /** The reactor's own descriptors. */
    const wake: set<int>
    ghost var reg: Registry

    ghost predicate Valid()
      reads this, entries, polls
    {
      && count <= capacity
      && entries.Length == capacity && polls.Length == capacity + 1 && snapshots.Length == capacity
      && Sorted(entries[..count]) && Matches(entries[..count], reg)
      && Aligned(entries[..count], polls[1..count + 1])
    }

    constructor (own: set<int>)
      ensures Valid() && reg == map[] && wake == own
      ensures fresh(entries) && fresh(polls) && fresh(snapshots)
    {
      entries := new Entry[0];
      polls := new PollFd[1](_ => PollFd(-1, 0, 0));
      snapshots := new Snapshot[0];
      count, capacity, wake, reg := 0, 0, own, map[];
    }

    /** Binary search: the position, or where to insert. */
    method FindIdx(fd: int) returns (found: bool, idx: nat)
      requires Valid()
      ensures found <==> fd in reg
      ensures found ==> idx < count && entries[idx].fd == fd && entries[idx] == reg[fd]
      ensures !found ==> idx <= count
      ensures !found ==> forall i :: 0 <= i < idx ==> entries[..count][i].fd < fd
      ensures !found ==> forall i :: idx <= i < count ==> fd < entries[..count][i].fd
    {
      hide ToPoll;
      ghost var s := entries[..count];
      var low, high := 0, count;
      while low < high
        invariant 0 <= low <= high <= count
        invariant forall i :: 0 <= i < low ==> s[i].fd < fd
        invariant forall i :: high <= i < count ==> fd < s[i].fd
      {
        var mid := low + (high - low) / 2;
        assert s[mid] == entries[mid];
        if entries[mid].fd == fd { return true, mid; }
        if entries[mid].fd < fd { low := mid + 1; } else { high := mid; }
      }
      return false, low;
    }

    /** Doubling when full; everything already there stays. */
    method Reserve()
      requires Valid()
      modifies this`entries, this`polls, this`snapshots, this`capacity
      ensures Valid() && count < capacity && entries[..count] == old(entries[..count])
      ensures polls[..count + 1] == old(polls[..count + 1])
      ensures entries == old(entries) || fresh(entries)
      ensures polls == old(polls) || fresh(polls)
      ensures Kept(old(snapshots), old(snapshots[..]))
    {
      hide ToPoll;
      if count == capacity {
        var size := if capacity == 0 then 16 else capacity * 2;
        ghost var ps := polls[..];
        polls := Resized(polls, size + 1, PollFd(-1, 0, 0));
        snapshots := Resized(snapshots, size, Snapshot(-1, 0));
        entries := Resized(entries, size, Entry(-1, 0, 0, 0));
        capacity := size;
        assert entries[..count] == old(entries[..count]);
        assert polls[..count + 1] == ps && polls[1..count + 1] == ps[1..];
        assert snapshots[..old(snapshots.Length)] == old(snapshots[..]);
      }
    }

    /** The snapshots taken before are still at the front of the array. */
    twostate predicate Kept(was: array<Snapshot>, contents: seq<Snapshot>)
      reads this, snapshots
    {
      && (snapshots == was || fresh(snapshots))
      && snapshots.Length >= |contents| && snapshots[..|contents|] == contents
    }

    /** `mcp_reactor_add`. */
    method DoAdd(fd: int, events: mask, cb: nat, user: nat) returns (st: Status)
      requires Valid()
      modifies this, entries, polls
      ensures Valid() && Kept(old(snapshots), old(snapshots[..]))
      ensures entries == old(entries) || fresh(entries)
      ensures polls == old(polls) || fresh(polls)
      ensures st == StatusOf(old(reg), wake, Add(fd, events, cb, user))
      ensures reg == After(old(reg), wake, Add(fd, events, cb, user))
    {
      hide ToPoll, ValidMask, Matches, Sorted, Aligned;
      if fd < 0 || cb == 0 { return InvalidArgument; }
      if !ValidMask(events) { return InvalidArgument; }
      if fd in wake { return InvalidArgument; }
      var found, ins := FindIdx(fd);
      if found { return AlreadyExists; }
      Reserve();
      Place(ins, Entry(fd, events, cb, user));
      return Ok;
    }

    /** Both arrays make room at the same place. */
    method Place(ins: nat, e: Entry)
      requires Valid() && count < capacity && ins <= count && e.fd !in reg
      requires forall i :: 0 <= i < ins ==> entries[..count][i].fd < e.fd
      requires forall i :: ins <= i < count ==> e.fd < entries[..count][i].fd
      modifies this`count, this`reg, entries, polls
      ensures Valid() && reg == old(reg)[e.fd := e]
    {
      hide ToPoll, Matches, Sorted, Aligned, Inserted;
      ghost var s, ps := entries[..count], polls[1..count + 1];
      var p := PollFd(e.fd, ToPoll(e.events), 0);
      ghost var t := s[..ins] + [e] + s[ins..];
      assert Inserted(s, ins, e, t) by { InsertedBy(s, ins, e); }
      InsertSorted(s, ins, e, t);
      InsertMatches(s, ins, e, t, reg);
      InsertAligned(s, ps, ins, e, p);
      InsertBehind(polls[..], ins, count, p);
      InsertSlot(polls, ins + 1, count + 1, p);
      assert polls[1..count + 2] == polls[..count + 2][1..];
      InsertFront(entries[..], ins, count);
      InsertSlot(entries, ins, count, e);
      count := count + 1;
      reg := reg[e.fd := e];
    }

    /** `mcp_reactor_modify`. */
    method DoModify(fd: int, events: mask) returns (st: Status)
      requires Valid()
      modifies this`reg, entries, polls
      ensures Valid()
      ensures st == StatusOf(old(reg), wake, Modify(fd, events))
      ensures reg == After(old(reg), wake, Modify(fd, events))
    {
      hide ToPoll, ValidMask, Matches, Sorted;
      if fd < 0 || !ValidMask(events) { return InvalidArgument; }
      var found, idx := FindIdx(fd);
      if !found { return NotFound; }
      ghost var s, ps := entries[..count], polls[1..count + 1];
      var e := entries[idx].(events := events);
      assert s[idx] == entries[idx] && ps[idx] == polls[idx + 1];
      UpdateMatches(s, idx, e, reg);
      polls[idx + 1] := polls[idx + 1].(events := ToPoll(events));
      entries[idx] := e;
      reg := reg[fd := e];
      assert entries[..count] == s[idx := e];
      assert polls[1..count + 1] == ps[idx := ps[idx].(events := ToPoll(events))];
      return Ok;
    }

    /** `mcp_reactor_remove`. */
    method DoRemove(fd: int) returns (st: Status)
      requires Valid()
      modifies this`count, this`reg, entries, polls
      ensures Valid()
      ensures st == StatusOf(old(reg), wake, Remove(fd))
      ensures reg == After(old(reg), wake, Remove(fd))
    {
      hide ToPoll, Matches, Sorted, Aligned, Inserted;
      if fd < 0 { return InvalidArgument; }
      var found, idx := FindIdx(fd);
      if !found { return NotFound; }
      CloseGap(idx);
      return Ok;
    }

    /** Both arrays close up at the same place. */
    method CloseGap(idx: nat)
      requires Valid() && idx < count
      modifies this`count, this`reg, entries, polls
      ensures Valid() && reg == old(reg) - {old(entries[idx].fd)}
    {
      hide ToPoll, Matches, Sorted, Aligned, Inserted;
      ghost var s, ps := entries[..count], polls[1..count + 1];
      ghost var t := s[..idx] + s[idx + 1..];
      assert Inserted(t, idx, s[idx], s) by { RemovedBy(s, idx); }
      DeleteSorted(s, idx, t);
      DeleteMatches(s, idx, t, reg);
      DeleteAligned(s, ps, idx);
      RemoveBehind(polls[..], idx, count);
      RemoveSlot(polls, idx + 1, count + 1);
      assert polls[1..count] == polls[..count][1..];
      RemoveFront(entries[..], idx, count);
      RemoveSlot(entries, idx, count);
      count := count - 1;
      reg := reg - {s[idx].fd};
    }

    /** One call that a callback makes. */
    method Perform(op: Op)
      requires Valid()
      modifies this, entries, polls
      ensures Valid() && reg == After(old(reg), wake, op) && Kept(old(snapshots), old(snapshots[..]))
      ensures entries == old(entries) || fresh(entries)
      ensures polls == old(polls) || fresh(polls)
    {
      hide After, Matches, Sorted, Aligned;
      match op {
        case Add(fd, events, cb, user) => var _ := DoAdd(fd, events, cb, user);
        case Modify(fd, events) => var _ := DoModify(fd, events);
        case Remove(fd) => var _ := DoRemove(fd);
      }
    }

    /** Everything a callback does to the registry. */
    method Callback(ops: seq<Op>)
      requires Valid()
      modifies this, entries, polls
      ensures Valid() && reg == AfterAll(old(reg), wake, ops) && Kept(old(snapshots), old(snapshots[..]))
      ensures entries == old(entries) || fresh(entries)
      ensures polls == old(polls) || fresh(polls)
    {
      hide After, Matches, Sorted, Aligned;
      ghost var taken := snapshots[..];
      for i := 0 to |ops|
        invariant Valid() && reg == AfterAll(old(reg), wake, ops[..i])
        invariant snapshots == old(snapshots) || fresh(snapshots)
        invariant snapshots.Length >= |taken| && snapshots[..|taken|] == taken
        invariant entries == old(entries) || fresh(entries)
        invariant polls == old(polls) || fresh(polls)
      {
        ghost var now := snapshots[..];
        Perform(ops[i]);
        assert snapshots[..|taken|] == now[..|taken|];
        assert ops[..i + 1][..i] == ops[..i];
      }
      assert ops[..|ops|] == ops;
    }

    /** The snapshot loop: descriptors with something to report, in order. */
    method Snap() returns (fired: nat)
      requires Valid()
      modifies snapshots
      ensures Valid() && fired <= count && snapshots[..fired] == Fired(polls[1..count + 1])
    {
      hide ToPoll, Matches, Sorted, Aligned;
      fired := 0;
      ghost var ps := polls[1..count + 1];
      for i := 1 to count + 1
        invariant fired < i && snapshots[..fired] == Fired(ps[..i - 1])
      {
        assert ps[..i][..i - 1] == ps[..i - 1] && ps[i - 1] == polls[i];
        if polls[i].revents != 0 {
          snapshots[fired] := Snapshot(polls[i].fd, polls[i].revents);
          fired := fired + 1;
        }
      }
      assert ps[..count] == ps;
    }

    /** The poll-backend step after `poll` has filled in what fired. */
    method Step(sc: Script) returns (log: seq<Call>)
      requires Valid()
      modifies this, entries, polls, snapshots
      ensures Valid()
      ensures var d := Dispatch(old(reg), wake, Fired(old(polls[1..count + 1])), sc, 0, 0);
              log == CallsOf(d.moments) && reg == d.end
    {
      hide ToPoll, Matches, Sorted, Aligned, After, AfterAll, Fired, Due, CallFor;
      var fired := Snap();
      ghost var snaps := snapshots[..fired];
      ghost var end := Dispatch(reg, wake, snaps, sc, 0, 0);
      log := [];
      assert [] + CallsOf(end.moments) == CallsOf(end.moments);
      var i := 0;
      while i < fired
        invariant 0 <= i <= fired && Valid()
        invariant snapshots.Length >= fired && snapshots[..fired] == snaps
        invariant entries == old(entries) || fresh(entries)
        invariant polls == old(polls) || fresh(polls)
        invariant snapshots == old(snapshots) || fresh(snapshots)
        invariant var d := Dispatch(reg, wake, snaps, sc, i, |log|);
                  log + CallsOf(d.moments) == CallsOf(end.moments) && d.end == end.end
      {
        if sc.stops(i) { break; }
        var target := snapshots[i];
        assert target == snaps[i];
        DispatchStep(reg, wake, snaps, sc, i, |log|, log);
        ghost var now := snapshots[..];
        var called := Deliver(target, sc.ops(|log|));
        assert snapshots[..fired] == now[..fired];
        if called.Some? { log := log + [called.value]; }
        i := i + 1;
      }
    }

    /** One snapshot: looked up again, since an earlier callback may have changed or removed it. */
    method Deliver(target: Snapshot, ops: seq<Op>) returns (called: Option<Call>)
      requires Valid()
      modifies this, entries, polls
      ensures Valid() && Kept(old(snapshots), old(snapshots[..]))
      ensures entries == old(entries) || fresh(entries)
      ensures polls == old(polls) || fresh(polls)
      ensures called.Some? <==> Due(old(reg), target)
      ensures called.Some? ==> called.value == CallFor(old(reg), target) && reg == AfterAll(old(reg), wake, ops)
      ensures called.None? ==> reg == old(reg)
    {
      hide ToPoll, Matches, Sorted, Aligned, FromPoll, AfterAll;
      called := None;
      var found, idx := FindIdx(target.fd);
      if found {
        var entry := entries[idx];
        var mask := FromPoll(target.revents, entry.events);
        if mask != 0 {
          Callback(ops);
          called := Some(Call(target.fd, mask, entry));
        }
      }
    }
  }

  function Fired(ps: seq<PollFd>): seq<Snapshot> {
    if ps == [] then []
    else
      var p, before := ps[|ps| - 1], Fired(ps[..|ps| - 1]);
      if p.revents != 0 then before + [Snapshot(p.fd, p.revents)] else before
  }

  /** Snapshots of a sorted registry ascend, so the claims about batches apply to every step. */
  lemma {:induction false} FiredAscends(es: seq<Entry>, ps: seq<PollFd>)
    requires Sorted(es) && Aligned(es, ps)
    ensures Ascending(Fired(ps))
    ensures forall i :: 0 <= i < |Fired(ps)| ==> ps != [] && Fired(ps)[i].fd <= ps[|ps| - 1].fd
  {
    hide ToPoll;
    if ps != [] {
      var n := |ps| - 1;
      FiredAscends(es[..n], ps[..n]);
    }
  }

  /** So whatever the callbacks of a step do to the registry, each call of the step is current when it is made. */
  lemma StepCallsAreCurrent(es: seq<Entry>, ps: seq<PollFd>, reg: Registry, wake: set<int>, sc: Script)
    requires Sorted(es) && Aligned(es, ps)
    ensures WellDispatched(Dispatch(reg, wake, Fired(ps), sc, 0, 0).moments, Fired(ps), 0)
  {
    FiredAscends(es, ps);
    CallsAreCurrent(reg, wake, Fired(ps), sc, 0, 0);
  }

  lemma DispatchStep(reg: Registry, wake: set<int>, snaps: seq<Snapshot>, sc: Script, i: nat, k: nat, log: seq<Call>)
    requires i < |snaps| && !sc.stops(i)
    ensures var d := Dispatch(reg, wake, snaps, sc, i, k);
            if !Due(reg, snaps[i]) then d == Dispatch(reg, wake, snaps, sc, i + 1, k)
            else
              var e := Dispatch(AfterAll(reg, wake, sc.ops(k)), wake, snaps, sc, i + 1, k + 1);
              log + CallsOf(d.moments) == log + [CallFor(reg, snaps[i])] + CallsOf(e.moments) && d.end == e.end
  {
    hide FromPoll, AfterAll;
    if Due(reg, snaps[i]) {
      var e := Dispatch(AfterAll(reg, wake, sc.ops(k)), wake, snaps, sc, i + 1, k + 1);
      assert ([Moment(CallFor(reg, snaps[i]), reg)] + e.moments)[1..] == e.moments;
    }
  }

  lemma InsertedBy(s: seq<Entry>, k: nat, e: Entry)
    requires k <= |s|
    ensures Inserted(s, k, e, s[..k] + [e] + s[k..])
  {
  }

  lemma RemovedBy(s: seq<Entry>, k: nat)
    requires k < |s|
    ensures Inserted(s[..k] + s[k + 1..], k, s[k], s)
  {
  }

  // Slices of the arrays, with and without the wakeup slot.

  lemma InsertFront<T>(a: seq<T>, k: nat, n: nat)
    requires k <= n <= |a|
    ensures a[..k] == a[..n][..k] && a[k..n] == a[..n][k..]
  {
  }

  lemma InsertBehind<T>(a: seq<T>, k: nat, n: nat, x: T)
    requires k <= n < |a|
    ensures (a[..k + 1] + [x] + a[k + 1..n + 1])[1..] == a[1..n + 1][..k] + [x] + a[1..n + 1][k..]
  {
  }

  lemma RemoveFront<T>(a: seq<T>, k: nat, n: nat)
    requires k < n <= |a|
    ensures a[..k] == a[..n][..k] && a[k + 1..n] == a[..n][k + 1..]
  {
  }

  lemma RemoveBehind<T>(a: seq<T>, k: nat, n: nat)
    requires k < n < |a|
    ensures (a[..k + 1] + a[k + 2..n + 1])[1..] == a[1..n + 1][..k] + a[1..n + 1][k + 1..]
  {
  }

  lemma InsertAligned(es: seq<Entry>, ps: seq<PollFd>, k: nat, e: Entry, p: PollFd)
    requires Aligned(es, ps) && k <= |es| && p.fd == e.fd && p.events == ToPoll(e.events)
    ensures Aligned(es[..k] + [e] + es[k..], ps[..k] + [p] + ps[k..])
  {
    hide ToPoll;
  }

  lemma DeleteAligned(es: seq<Entry>, ps: seq<PollFd>, k: nat)
    requires Aligned(es, ps) && k < |es|
    ensures Aligned(es[..k] + es[k + 1..], ps[..k] + ps[k + 1..])
  {
    hide ToPoll;
  }
}
