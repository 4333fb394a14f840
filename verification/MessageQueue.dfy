/**
  The server's message queue: two parallel arrays used as a ring that never
  wraps, because a push first moves everything back to the front.
 */
module MessageQueue {
  import opened Blocks

  datatype Item = Item(session: nat, msg: nat)

  class Queue {
    var sessions: array<nat>
    var msgs: array<nat>
    var head: nat
    var len: nat
    var cap: nat
    const maxLen: nat

    /** A failed growth may leave one array longer than the other. */
    ghost predicate Valid()
      reads this
    {
      && cap <= sessions.Length && cap <= msgs.Length && sessions != msgs
      && head + len <= cap && (cap > 0 ==> head < cap)
    }

    /** The queued items, oldest first. */
    ghost function Contents(): (s: seq<Item>)
      requires Valid()
      reads this, sessions, msgs
      ensures |s| == len
    {
      seq(len, i requires 0 <= i < len && Valid() reads this, sessions, msgs =>
        Item(sessions[head + i], msgs[head + i]))
    }

    constructor (max: nat)
      ensures Valid() && Contents() == [] && maxLen == max && fresh(sessions) && fresh(msgs)
    {
      sessions, msgs := new nat[0], new nat[0];
      head, len, cap, maxLen := 0, 0, 0, max;
    }

    /** The compaction loop: a left shift, so no slot is overwritten before it was read. */
    method Compact()
      requires Valid() && head > 0
      modifies this`head, sessions, msgs
      ensures Valid() && head == 0 && Contents() == old(Contents())
    {
      for i := 0 to len
        invariant head == old(head)
        invariant forall j :: 0 <= j < i ==> sessions[j] == old(sessions[head + j]) && msgs[j] == old(msgs[head + j])
        invariant forall j :: i <= j < cap ==> sessions[j] == old(sessions[j]) && msgs[j] == old(msgs[j])
      {
        NoWrap(head + i, cap);
        var src := (head + i) % cap;
        if src != i {
          sessions[i] := sessions[src];
          msgs[i] := msgs[src];
        }
      }
      head := 0;
    }

    /** `queue_grow`; the arguments say whether the two reallocations would succeed. */
    method Grow(msgsFit: bool, sessionsFit: bool) returns (ok: bool)
      requires Valid()
      modifies this, sessions, msgs
      ensures Valid() && Contents() == old(Contents()) && len == old(len)
      ensures sessions == old(sessions) || fresh(sessions)
      ensures msgs == old(msgs) || fresh(msgs)
      ensures ok <==> old(len < cap) || (msgsFit && sessionsFit)
      ensures ok ==> head == 0 && len < cap
      ensures !ok ==> cap == old(cap)
    {
      if len < cap && head == 0 { return true; }
      if head > 0 {
        Compact();
        if len < cap { return true; }
      }
      var ncap := if cap == 0 then 8 else cap * 2;
      if !msgsFit { return false; }
      msgs := Resized(msgs, ncap, 0);
      if !sessionsFit { return false; }
      sessions := Resized(sessions, ncap, 0);
      cap := ncap;
      return true;
    }

    /** `mcp_queue_push`: appends, or fails and leaves the queue as it was. */
    method Push(x: Item, msgsFit: bool, sessionsFit: bool) returns (ok: bool)
      requires Valid()
      modifies this, sessions, msgs
      ensures Valid()
      ensures sessions == old(sessions) || fresh(sessions)
      ensures msgs == old(msgs) || fresh(msgs)
      ensures ok <==> old(len) < maxLen && (old(len < cap) || (msgsFit && sessionsFit))
      ensures Contents() == if ok then old(Contents()) + [x] else old(Contents())
    {
      if len >= maxLen { return false; }
      ok := Grow(msgsFit, sessionsFit);
      if !ok { return false; }
      ghost var before := Contents();
      NoWrap(len, cap);
      var slot := (head + len) % cap;
      sessions[slot] := x.session;
      msgs[slot] := x.msg;
      len := len + 1;
      assert Contents() == before + [x];
    }

    /** `mcp_queue_pop`. */
    method Pop() returns (x: Item, ok: bool)
      requires Valid()
      modifies this
      ensures Valid() && sessions == old(sessions) && msgs == old(msgs)
      ensures ok <==> old(len) > 0
      ensures ok ==> [x] + Contents() == old(Contents())
      ensures !ok ==> Contents() == old(Contents())
    {
      if len == 0 { return Item(0, 0), false; }
      ghost var before := Contents();
      x := Item(sessions[head], msgs[head]);
      NextSlot(head, cap);
      head := (head + 1) % cap;
      len := len - 1;
      assert [x] + Contents() == before;
      return x, true;
    }

    /** `mcp_queue_destroy` destroys every queued message, once. */
    method Destroy() returns (destroyed: seq<nat>)
      requires Valid()
      ensures |destroyed| == len && forall i :: 0 <= i < len ==> destroyed[i] == Contents()[i].msg
    {
      destroyed := [];
      for i := 0 to len
        invariant |destroyed| == i && forall j :: 0 <= j < i ==> destroyed[j] == Contents()[j].msg
      {
        NoWrap(head + i, cap);
        destroyed := destroyed + [msgs[(head + i) % cap]];
      }
    }
  }

  lemma NoWrap(x: nat, cap: nat)
    requires x < cap
    ensures x % cap == x
  {
  }

  lemma NextSlot(x: nat, cap: nat)
    requires x < cap
    ensures (x + 1) % cap == if x + 1 == cap then 0 else x + 1
  {
  }
}
