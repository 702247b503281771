/** eloop's timeouts on their linked list. */
module Eloop {
  import opened Bytes
  import opened Rings
  import opened DlList
  import opened Timeouts

  /** The list nodes: a timeout's, or the head's, which is in no timeout. */
  type TimeoutNode = Node<Option<Timeout>>

  /** The timeouts the nodes are embedded in. */
  ghost function Entries(nodes: seq<TimeoutNode>): (ts: seq<Timeout>)
    requires AllTimeouts(nodes)
    ensures |ts| == |nodes| && forall i :: 0 <= i < |nodes| ==> ts[i] == nodes[i].entry.value
  {
    seq(|nodes|, i requires 0 <= i < |nodes| => nodes[i].entry.value)
  }

  ghost predicate AllTimeouts(nodes: seq<TimeoutNode>) {
    forall i :: 0 <= i < |nodes| ==> nodes[i].entry.Some?
  }

  /** The part of struct eloop_data that timeouts use. */
  class EloopData {
    const timeout: TimeoutNode
    ghost var nodes: seq<TimeoutNode>
    var count: nat             // how many timeouts have been registered

    /** eloop_init */
    constructor ()
      ensures Valid() && View() == Loop([], 0)
      ensures fresh(timeout)
    {
      timeout := new Node(None);
      nodes, count := [], 0;
      new;
      DlListInit(timeout);
    }

    ghost predicate Valid()
      reads this, timeout, nodes
    {
      IsList(timeout, nodes) && AllTimeouts(nodes)
    }

    ghost function Heap(): set<TimeoutNode>
      reads this
    {
      Nodes(timeout, nodes)
    }

    ghost function View(): Loop
      requires Valid()
      reads this, timeout, nodes
    {
      Loop(Entries(nodes), count)
    }

    /**
     * eloop_register_timeout, where the clock reads `now`. It reports success also for a timeout from
     * 2^31 seconds on, which it drops.
     */
    method RegisterTimeout(now: Time, secs: Unsigned, usecs: Unsigned, kind: Kind) returns (status: int)
      requires Valid()
      modifies this, Heap()
      ensures Valid() && fresh(Heap() - old(Heap()))
      ensures status == 0 && (View() == old(View()) <==> secs >= 0x8000_0000)
      ensures View() == Register(old(View()), now, secs, usecs, kind)
    {
      var time := now;
      time := Time(time.sec + ToInt(secs), time.usec);
      if time.sec < now.sec {
        return 0;
      }
      time := Time(time.sec, time.usec + ToInt(usecs));
      ghost var asked := time;
      while time.usec >= MILLION
        invariant Carry(time) == Carry(asked)
        decreases time.usec
      {
        time := Time(time.sec + 1, time.usec - MILLION);
      }
      var t := Timeout(time, kind.handler, kind.eloopData, kind.userData, count);
      count := count + 1;
      var node := new Node(Some(t));
      InsertNode(node);
      return 0;
    }

    /** The end of eloop_register_timeout: the node goes before the first one with a later deadline. */
    method InsertNode(node: TimeoutNode)
      requires Valid() && node !in Heap() && node.entry.Some?
      modifies this`nodes, node, Heap()
      ensures Valid() && Heap() == old(Heap()) + {node}
      ensures Entries(nodes) == Insert(old(Entries(nodes)), node.entry.value)
    {
      hide AllTimeouts, Place;
      ghost var s := nodes;
      var tmp, i := FindLater(node.entry.value.time);
      NextOf(timeout, s, i);
      if tmp != timeout {
        DlListAdd(tmp.prev, node, [timeout] + s, i);
        PlacedAt(timeout, s, i, node);
      } else {
        DlListAddTail(timeout, node, s);
        PlacedLast(s, i, node);
      }
      Inserted(node, i);
    }

    /** The traversal: the first node with a later deadline, or the head. */
    method FindLater(time: Time) returns (tmp: TimeoutNode, ghost i: nat)
      requires Valid()
      ensures i == Place(Entries(nodes), time) && tmp == Met(timeout, nodes, i)
      ensures tmp == timeout <==> i == |nodes|
    {
      i := 0;
      NextOf(timeout, nodes, 0);
      tmp := timeout.next;
      while tmp != timeout && !Before(time, tmp.entry.value.time)
        invariant i <= |nodes| && tmp == Met(timeout, nodes, i)
        invariant forall j :: 0 <= j < i ==> !Before(time, Entries(nodes)[j].time)
        decreases |nodes| - i
      {
        NextOf(timeout, nodes, i + 1);
        tmp := tmp.next;
        i := i + 1;
      }
      PlaceIs(Entries(nodes), time, i);
    }

    /** The node has been put at place i. */
    lemma PlacedAt<T>(first: T, s: seq<T>, i: nat, x: T)
      requires i <= |s|
      ensures ([first] + s)[..i + 1] + [x] + ([first] + s)[i + 1..] == [first] + (s[..i] + [x] + s[i..])
    {}

    lemma PlacedLast<T>(s: seq<T>, i: nat, x: T)
      requires i == |s|
      ensures s + [x] == s[..i] + [x] + s[i..]
    {}

    ghost method Inserted(node: TimeoutNode, i: nat)
      requires i <= |nodes| && node.entry.Some? && AllTimeouts(nodes)
      requires IsList(timeout, nodes[..i] + [node] + nodes[i..])
      modifies this`nodes
      ensures nodes == old(nodes)[..i] + [node] + old(nodes)[i..] && Valid()
      ensures Entries(nodes) == old(Entries(nodes))[..i] + [node.entry.value] + old(Entries(nodes))[i..]
      ensures Heap() == old(Heap()) + {node}
    {
      ghost var s := nodes;
      nodes := s[..i] + [node] + s[i..];
    }

    /** eloop_remove_timeout, on the timeout that is number i of the list. */
    method RemoveTimeout(node: TimeoutNode, ghost i: nat)
      requires Valid() && i < |nodes| && node == nodes[i]
      modifies this`nodes, Heap()
      ensures Valid() && nodes == Without(old(nodes), i) && Heap() <= old(Heap())
      ensures Entries(nodes) == Without(old(Entries(nodes)), i)
    {
      DlListDel(node, timeout, nodes, i);
      nodes := Without(nodes, i);
    }

    /** In the middle of a safe traversal of s: `kept` has been passed and is still there. */
    ghost predicate Passed(s: seq<TimeoutNode>, j: nat, kept: seq<TimeoutNode>)
      reads this, timeout, nodes
    {
      Valid() && j <= |s| && nodes == kept + s[j..] && AllTimeouts(s) && AllTimeouts(kept)
    }

    /** The next node of a node that is still to be passed. */
    lemma NextPassed(s: seq<TimeoutNode>, j: nat, kept: seq<TimeoutNode>)
      requires Passed(s, j, kept)
      ensures Met(timeout, s, j).next != null && (j < |s| ==> Met(timeout, s, j).next == Met(timeout, s, j + 1))
      ensures j < |s| ==> |kept| < |nodes| && nodes[|kept|] == s[j] && s[j] != timeout
    {
      if j < |s| {
        assert nodes[|kept|] == s[j];
        NextOf(timeout, nodes, |kept| + 1);
        assert j + 1 < |s| ==> nodes[|kept| + 1] == s[j + 1];
        assert s[j] in nodes;
      } else {
        NextOf(timeout, nodes, 0);
      }
    }

    /** One round of eloop_cancel_timeout */
    method CancelItem(item: TimeoutNode, kind: Kind, ghost s: seq<TimeoutNode>, ghost j: nat,
                      ghost kept: seq<TimeoutNode>)
      returns (gone: bool)
      requires Passed(s, j, kept) && j < |s| && item == s[j]
      modifies this`nodes, Heap()
      ensures item.entry.Some?
      ensures gone <==> Matches(item.entry.value, kind.handler, kind.eloopData, kind.userData)
      ensures Passed(s, j + 1, if gone then kept else Snoc(kept, item)) && Heap() <= old(Heap())
    {
      NextPassed(s, j, kept);
      gone := Matches(item.entry.value, kind.handler, kind.eloopData, kind.userData);
      if gone {
        assert Without(nodes, |kept|) == kept + s[j + 1..];
        RemoveTimeout(item, |kept|);
      } else {
        assert kept + s[j..] == kept + [item] + s[j + 1..];
      }
    }

    /** eloop_cancel_timeout. The traversal has its next node before a node may go. */
    method CancelTimeout(kind: Kind) returns (removed: nat)
      requires Valid()
      modifies this`nodes, Heap()
      ensures Valid() && Heap() <= old(Heap())
      ensures View() == Cancel(old(View()), kind)
      ensures removed == |old(nodes)| - |nodes|
    {
      hide Passed, SoFar, IsList, AllTimeouts, Nodes;
      removed := 0;
      ghost var s, j: nat, kept: seq<TimeoutNode> := nodes, 0, [];
      StartPassing(kind);
      NextOf(timeout, s, 0);
      var item: TimeoutNode := timeout.next;
      NextPassed(s, 0, kept);
      var n: TimeoutNode := item.next;
      while item != timeout
        invariant Passed(s, j, kept) && Heap() <= old(Heap()) && |kept| + removed == j <= |s|
        invariant item == Met(timeout, s, j) && (j < |s| ==> n == Met(timeout, s, j + 1))
        invariant SoFar(s, j, kept, kind)
        decreases |s| - j
      {
        var gone := CancelItem(item, kind, s, j, kept);
        CancelStep(s, j, kept, kind);
        if gone {
          removed := removed + 1;
        } else {
          kept := Snoc(kept, item);
        }
        j := j + 1;
        item := n;
        NextPassed(s, j, kept);
        n := n.next;
      }
      AllPassed(s, j, kept, kind);
    }

    /** The traversal of the other functions: the first timeout of exactly this kind, or the head. */
    method FindSame(kind: Kind) returns (item: TimeoutNode, ghost i: nat)
      requires Valid()
      ensures i == First(Entries(nodes), kind.handler, kind.eloopData, kind.userData) && item == Met(timeout, nodes, i)
      ensures item == timeout <==> i == |nodes|
    {
      i := 0;
      NextOf(timeout, nodes, 0);
      item := timeout.next;
      while item != timeout && !Same(item.entry.value, kind.handler, kind.eloopData, kind.userData)
        invariant i <= |nodes| && item == Met(timeout, nodes, i)
        invariant forall j :: 0 <= j < i ==> !Same(Entries(nodes)[j], kind.handler, kind.eloopData, kind.userData)
        decreases |nodes| - i
      {
        NextOf(timeout, nodes, i + 1);
        item := item.next;
        i := i + 1;
      }
      FirstIs(Entries(nodes), kind, i);
    }

    /** eloop_cancel_timeout_one. A safe traversal that ends with the node it removes. */
    method CancelTimeoutOne(now: Time, kind: Kind) returns (removed: bool, remaining: Time)
      requires Valid()
      modifies this`nodes, Heap()
      ensures Valid() && Heap() <= old(Heap())
      ensures (View(), removed, remaining) == CancelOne(old(View()), now, kind)
    {
      remaining := Time(0, 0);
      var item, i := FindSame(kind);
      if item == timeout {
        return false, remaining;
      }
      var time := item.entry.value.time;
      if Before(now, time) {
        remaining := Sub(time, now);
      }
      RemoveTimeout(item, i);
      return true, remaining;
    }

    /** eloop_is_timeout_registered */
    method IsTimeoutRegistered(kind: Kind) returns (yes: bool)
      requires Valid()
      ensures yes <==> exists t :: t in View().ts && Same(t, kind.handler, kind.eloopData, kind.userData)
    {
      var item, i := FindSame(kind);
      yes := item != timeout;
      assert yes ==> Entries(nodes)[i] in Entries(nodes);
    }

    /** eloop_deplete_timeout; the clock reads `now`, and `later` when the timeout is registered again. */
    method DepleteTimeout(now: Time, later: Time, secs: Unsigned, usecs: Unsigned, kind: Kind) returns (answer: int)
      requires Valid()
      modifies this, Heap()
      ensures Valid() && fresh(Heap() - old(Heap()))
      ensures View() == Deplete(old(View()), now, later, secs, usecs, kind)
      ensures answer == DepleteAnswer(old(View()), now, secs, usecs, kind)
    {
      var item, i := FindSame(kind);
      if item == timeout {
        return -1;
      }
      var requested := Time(ToInt(secs), ToInt(usecs));
      var remaining := Sub(item.entry.value.time, now);
      if Before(requested, remaining) {
        var removed := CancelTimeout(kind);
        var _ := RegisterTimeout(later, secs, usecs, kind);
        return 1;
      }
      return 0;
    }

    /** eloop_replenish_timeout */
    method ReplenishTimeout(now: Time, later: Time, secs: Unsigned, usecs: Unsigned, kind: Kind) returns (answer: int)
      requires Valid()
      modifies this, Heap()
      ensures Valid() && fresh(Heap() - old(Heap()))
      ensures View() == Replenish(old(View()), now, later, secs, usecs, kind)
      ensures answer == ReplenishAnswer(old(View()), now, secs, usecs, kind)
    {
      var item, i := FindSame(kind);
      if item == timeout {
        return -1;
      }
      var requested := Time(ToInt(secs), ToInt(usecs));
      var remaining := Sub(item.entry.value.time, now);
      if Before(remaining, requested) {
        var removed := CancelTimeout(kind);
        var _ := RegisterTimeout(later, secs, usecs, kind);
        return 1;
      }
      return 0;
    }

    /** What eloop_run passes to select: the time until the first deadline, or none without a timeout. */
    method SelectTimeout(now: Time) returns (tv: Option<Time>)
      requires Valid()
      ensures tv == if View().ts == [] then None
                    else if Before(now, View().ts[0].time) then Some(Sub(View().ts[0].time, now))
                    else Some(Time(0, 0))
    {
      var empty := DlListEmpty(timeout, nodes);
      if empty {
        return None;
      }
      NextOf(timeout, nodes, 0);
      var first := timeout.next.entry.value;
      if Before(now, first.time) {
        return Some(Sub(first.time, now));
      }
      return Some(Time(0, 0));
    }

    /**
     * The check of eloop_run after select: the first timeout is removed if it is due, and its handler is then called.
     */
    method CheckTimeout(now: Time) returns (due: Option<Timeout>)
      requires Valid()
      modifies this`nodes, Heap()
      ensures Valid() && Heap() <= old(Heap())
      ensures due == Due(old(View()), now) && View() == Fire(old(View()), now)
    {
      var empty := DlListEmpty(timeout, nodes);
      if empty {
        return None;
      }
      NextOf(timeout, nodes, 0);
      var first: TimeoutNode := timeout.next;
      if Before(now, first.entry.value.time) {
        return None;
      }
      due := Some(first.entry.value);
      ghost var ts := Entries(nodes);
      RemoveTimeout(first, 0);
      assert Without(ts, 0) == ts[1..];
    }

    lemma StartPassing(kind: Kind)
      requires Valid()
      ensures Passed(nodes, 0, []) && SoFar(nodes, 0, [], kind)
    {
      assert [] + nodes[0..] == nodes;
    }

    lemma AllPassed(s: seq<TimeoutNode>, j: nat, kept: seq<TimeoutNode>, kind: Kind)
      requires Passed(s, j, kept) && SoFar(s, j, kept, kind) && timeout == Met(timeout, s, j)
      ensures Valid() && nodes == kept && j == |s|
      ensures Entries(nodes) == Cancelled(Entries(s), kind.handler, kind.eloopData, kind.userData)
    {
      NextPassed(s, j, kept);
      assert s[j..] == [] && kept + [] == kept && Entries(kept) + [] == Entries(kept);
    }
  }

  /** What is kept after j nodes, and what of the others will be kept, is what cancelling keeps. */
  ghost predicate SoFar(s: seq<TimeoutNode>, j: nat, kept: seq<TimeoutNode>, kind: Kind) {
    && AllTimeouts(s) && AllTimeouts(kept) && j <= |s|
    && Cancelled(Entries(s), kind.handler, kind.eloopData, kind.userData)
       == Entries(kept) + Cancelled(Entries(s[j..]), kind.handler, kind.eloopData, kind.userData)
  }

  ghost function Snoc(nodes: seq<TimeoutNode>, node: TimeoutNode): (r: seq<TimeoutNode>)
    ensures r == nodes + [node]
  {
    nodes + [node]
  }

  lemma CancelledStep(ts: seq<Timeout>, kind: Kind)
    requires ts != []
    ensures var rest := Cancelled(ts[1..], kind.handler, kind.eloopData, kind.userData);
            Cancelled(ts, kind.handler, kind.eloopData, kind.userData)
            == if Matches(ts[0], kind.handler, kind.eloopData, kind.userData) then rest else [ts[0]] + rest
  {}

  lemma EntriesFrom(s: seq<TimeoutNode>, j: nat)
    requires AllTimeouts(s) && j < |s|
    ensures Entries(s[j..]) != [] && Entries(s[j..])[0] == s[j].entry.value
            && Entries(s[j..])[1..] == Entries(s[j + 1..])
  {}

  lemma EntriesSnoc(kept: seq<TimeoutNode>, node: TimeoutNode)
    requires AllTimeouts(kept) && node.entry.Some?
    ensures AllTimeouts(Snoc(kept, node)) && Entries(Snoc(kept, node)) == Entries(kept) + [node.entry.value]
  {}

  /** Cancelling looks at one timeout and then at those after it. */
  lemma CancelStep(s: seq<TimeoutNode>, j: nat, kept: seq<TimeoutNode>, kind: Kind)
    requires SoFar(s, j, kept, kind) && j < |s| && s[j].entry.Some?
    ensures SoFar(s, j + 1, if Matches(s[j].entry.value, kind.handler, kind.eloopData, kind.userData) then kept
            else Snoc(kept, s[j]), kind)
  {
    hide Cancelled, Entries, Matches, Snoc;
    var t, rest := s[j].entry.value, Cancelled(Entries(s[j + 1..]), kind.handler, kind.eloopData, kind.userData);
    EntriesFrom(s, j);
    CancelledStep(Entries(s[j..]), kind);
    if !Matches(t, kind.handler, kind.eloopData, kind.userData) {
      EntriesSnoc(kept, s[j]);
      assert Entries(kept) + [t] + rest == Entries(kept) + ([t] + rest);
    }
  }

  /** Where the search of eloop_register_timeout ends is the place of the timeout. */
  lemma {:induction false} PlaceIs(ts: seq<Timeout>, time: Time, i: nat)
    requires i <= |ts| && forall j :: 0 <= j < i ==> !Before(time, ts[j].time)
    requires i < |ts| ==> Before(time, ts[i].time)
    ensures Place(ts, time) == i
  {}

  lemma {:induction false} FirstIs(ts: seq<Timeout>, kind: Kind, i: nat)
    requires i <= |ts| && forall j :: 0 <= j < i ==> !Same(ts[j], kind.handler, kind.eloopData, kind.userData)
    requires i < |ts| ==> Same(ts[i], kind.handler, kind.eloopData, kind.userData)
    ensures First(ts, kind.handler, kind.eloopData, kind.userData) == i
  {}
}
