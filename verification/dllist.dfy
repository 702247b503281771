/** The doubly linked list of eloop: list.h. */
module DlList {
  import opened Rings

  /** dl_list_init */
  method DlListInit<T>(list: Node<T>)
    modifies list
    ensures IsList(list, [])
  {
    list.next := list;
    list.prev := list;
    assert [list] + [] == [list];
  }

  /** The ring from after node i around to node i. */
  ghost function FromAfter<T>(r: seq<Node<T>>, i: nat): seq<Node<T>>
    requires i < |r|
  {
    r[i + 1..] + r[..i + 1]
  }

  lemma SeenFromAfter<T>(r: seq<Node<T>>, i: nat)
    requires Ring(r) && i < |r|
    ensures var t := FromAfter(r, i);
            Ring(t) && t[|t| - 1] == r[i] && r[i].next == t[0] && (forall n :: n in t <==> n in r)
  {
    RotatedRing(r, i + 1);
    var t := FromAfter(r, i);
    assert t == Rotated(r, i + 1) && Link(t[|t| - 1], t[0]);
    assert r == r[..i + 1] + r[i + 1..];
  }

  lemma PutBack<T>(r: seq<Node<T>>, i: nat, node: Node<T>)
    requires i < |r| && Ring(FromAfter(r, i) + [node])
    ensures Ring(r[..i + 1] + [node] + r[i + 1..])
  {
    var u := FromAfter(r, i) + [node];
    RotatedRing(u, |r| - i - 1);
    assert Rotated(u, |r| - i - 1) == r[..i + 1] + [node] + r[i + 1..];
  }

  /** dl_list_add: after any node of a ring. */
  method DlListAdd<T>(list: Node<T>, item: Node<T>, ghost r: seq<Node<T>>, ghost i: nat)
    requires Ring(r) && i < |r| && list == r[i] && item !in r
    modifies item, set n | n in r
    ensures Ring(r[..i + 1] + [item] + r[i + 1..])
  {
    SeenFromAfter(r, i);
    AddBefore(list, item, FromAfter(r, i));
    PutBack(r, i, item);
  }

  /** The stores of dl_list_add: t is the ring from after `list` around to it. */
  method AddBefore<T>(list: Node<T>, item: Node<T>, ghost t: seq<Node<T>>)
    requires Ring(t) && list == t[|t| - 1] && list.next == t[0] && item !in t
    modifies item, list, t[0]
    ensures Ring(t + [item])
  {
    item.next := list.next;
    item.prev := list;
    list.next.prev := item;
    list.next := item;
    ChainKept(t);
    Joined(t, [item]);
    ApartJoined(t, [item]);
  }

  /** dl_list_add_tail */
  method DlListAddTail<T>(list: Node<T>, item: Node<T>, ghost s: seq<Node<T>>)
    requires IsList(list, s) && item !in [list] + s
    modifies item, Nodes(list, s)
    ensures IsList(list, s + [item])
  {
    ghost var r := [list] + s;
    assert Link(r[|s|], r[0]);
    DlListAdd(list.prev, item, r, |s|);
    assert r[..|s| + 1] + [item] + r[|s| + 1..] == [list] + (s + [item]);
  }

  /** dl_list_del */
  method DlListDel<T>(item: Node<T>, ghost list: Node<T>, ghost s: seq<Node<T>>, ghost i: nat)
    requires IsList(list, s) && i < |s| && item == s[i]
    modifies Nodes(list, s)
    ensures IsList(list, Without(s, i)) && item.next == null && item.prev == null
  {
    ghost var t := Others(list, s, i);
    FromEntry(list, s, i);
    InNodes(list, s);
    assert forall n :: n in t ==> n in Nodes(list, s);
    Unlink(item, t);
    FromHead(list, s, i);
  }

  /** The stores of dl_list_del: t is the rest of the ring, from after the item on. */
  method Unlink<T>(item: Node<T>, ghost t: seq<Node<T>>)
    requires Ring([item] + t) && t != [] && item !in t && item.next == t[0] && item.prev == t[|t| - 1]
    modifies item, t[0], t[|t| - 1]
    ensures Ring(t) && item.next == null && item.prev == null
  {
    ApartParts([item], t);
    Part([item] + t, 1, |t| + 1);
    assert ([item] + t)[1..|t| + 1] == t;
    item.next.prev := item.prev;
    item.prev.next := item.next;
    item.next := null;
    item.prev := null;
    ChainKept(t);
  }

  /** dl_list_empty */
  method DlListEmpty<T>(list: Node<T>, ghost s: seq<Node<T>>) returns (empty: bool)
    requires IsList(list, s)
    ensures empty <==> s == []
  {
    NextOf(list, s, 0);
    empty := list.next == list;
  }

  /** Entry i, or the head at the end: what a traversal meets after i entries. */
  ghost function Met<T>(list: Node<T>, s: seq<Node<T>>, i: nat): Node<T>
    requires i <= |s|
  {
    if i < |s| then s[i] else list
  }

  lemma NextOf<T>(list: Node<T>, s: seq<Node<T>>, i: nat)
    requires IsList(list, s) && i <= |s|
    ensures ([list] + s)[i].next == Met(list, s, i) && list !in s
    ensures Met(list, s, i).prev == ([list] + s)[i]
  {
    var r := [list] + s;
    assert i < |s| ==> Link(r[i], r[i + 1]);
    assert Link(r[|s|], r[0]);
    ApartParts([list], s);
  }

  /** dl_list_len */
  method DlListLen<T>(list: Node<T>, ghost s: seq<Node<T>>) returns (count: nat)
    requires IsList(list, s)
    ensures count == |s|
  {
    NextOf(list, s, 0);
    var item := list.next;
    count := 0;
    while item != list
      invariant count <= |s| && item == Met(list, s, count)
      decreases |s| - count
    {
      NextOf(list, s, count + 1);
      item := item.next;
      count := count + 1;
    }
  }
}
