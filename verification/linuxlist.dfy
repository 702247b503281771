/** The operations of linux_kenel_list.h, as operations on the sequences of nodes that lists hold. */
module LinuxList {
  import opened Rings

  /** INIT_LIST_HEAD */
  method InitListHead<T>(list: Node<T>)
    modifies list
    ensures IsList(list, [])
  {
    list.next := list;
    list.prev := list;
    assert [list] + [] == [list];
  }

  /** __list_add: r is the ring, from next around to prev. */
  method ListAddBetween<T>(node: Node<T>, prev: Node<T>, next: Node<T>, ghost r: seq<Node<T>>)
    requires Ring(r) && prev == r[|r| - 1] && next == r[0] && node !in r
    modifies node, prev, next
    ensures Ring(r + [node])
  {
    next.prev := node;
    node.next := next;
    node.prev := prev;
    prev.next := node;
    ChainKept(r);
    Joined(r, [node]);
    ApartJoined(r, [node]);
  }

  /** list_add: the node becomes the first. */
  method ListAdd<T>(node: Node<T>, head: Node<T>, ghost s: seq<Node<T>>)
    requires IsList(head, s) && node !in [head] + s
    modifies Nodes(head, s), node
    ensures IsList(head, [node] + s)
  {
    assert Rotated([head] + s, 1) == s + [head];
    RotatedRing([head] + s, 1);
    ListAddBetween(node, head, head.next, s + [head]);
    RotatedRing(s + [head] + [node], |s|);
    assert Rotated(s + [head] + [node], |s|) == [head] + ([node] + s);
  }

  /** list_add_tail: the node becomes the last. */
  method ListAddTail<T>(node: Node<T>, head: Node<T>, ghost s: seq<Node<T>>)
    requires IsList(head, s) && node !in [head] + s
    modifies Nodes(head, s), node
    ensures IsList(head, s + [node])
  {
    ListAddBetween(node, head.prev, head, [head] + s);
    assert [head] + s + [node] == [head] + (s + [node]);
  }

  /** __list_del, with the neighbours of an entry: r is the rest of its ring, from next around to prev. */
  method ListDelBetween<T>(prev: Node<T>, next: Node<T>, ghost entry: Node<T>, ghost r: seq<Node<T>>)
    requires Ring([entry] + r) && r != [] && prev == r[|r| - 1] && next == r[0]
    modifies prev, next
    ensures Ring(r)
  {
    ApartParts([entry], r);
    Part([entry] + r, 1, |r| + 1);
    assert ([entry] + r)[1..|r| + 1] == r;
    next.prev := prev;
    prev.next := next;
    ChainKept(r);
  }

  /** __list_del_entry: entry i of the list is taken out, and keeps its own links. */
  method ListDelEntry<T>(entry: Node<T>, ghost head: Node<T>, ghost s: seq<Node<T>>, ghost i: nat)
    requires IsList(head, s) && i < |s| && entry == s[i]
    modifies Nodes(head, s) - {entry}
    ensures IsList(head, Without(s, i)) && entry !in [head] + Without(s, i)
  {
    FromEntry(head, s, i);
    assert forall n :: n in Others(head, s, i) ==> n in Nodes(head, s) - {entry};
    ListDelBetween(entry.prev, entry.next, entry, Others(head, s, i));
    FromHead(head, s, i);
  }

  /** list_del */
  method ListDel<T>(entry: Node<T>, ghost head: Node<T>, ghost s: seq<Node<T>>, ghost i: nat)
    requires IsList(head, s) && i < |s| && entry == s[i]
    modifies Nodes(head, s)
    ensures IsList(head, Without(s, i)) && entry.next == null && entry.prev == null
  {
    ListDelEntry(entry, head, s, i);
    entry.next := null;
    entry.prev := null;
  }

  /** list_del_init */
  method ListDelInit<T>(entry: Node<T>, ghost head: Node<T>, ghost s: seq<Node<T>>, ghost i: nat)
    requires IsList(head, s) && i < |s| && entry == s[i]
    modifies Nodes(head, s)
    ensures IsList(head, Without(s, i)) && IsList(entry, [])
  {
    ListDelEntry(entry, head, s, i);
    InitListHead(entry);
  }

  /** The other nodes of a ring, from node i around. */
  ghost function Around<T>(r: seq<Node<T>>, i: nat): seq<Node<T>>
    requires i < |r|
  {
    r[i + 1..] + r[..i]
  }

  lemma FromNode<T>(r: seq<Node<T>>, i: nat)
    requires Ring(r) && i < |r|
    ensures var t := Around(r, i);
            && Ring([r[i]] + t) && Chain(t) && Apart(t) && r[i] !in t
            && r[i].next == (if t == [] then r[i] else t[0]) && r[i].prev == (if t == [] then r[i] else t[|t| - 1])
  {
    var t := Around(r, i);
    var q := [r[i]] + t;
    RotatedRing(r, i);
    assert Rotated(r, i) == q;
    assert Link(q[|t|], q[0]) && (t != [] ==> Link(q[0], q[1]));
    ApartParts([r[i]], t);
    Part(q, 1, |q|);
    assert q[1..|q|] == t;
  }

  lemma InPlace<T>(r: seq<Node<T>>, i: nat, node: Node<T>)
    requires i < |r| && Ring([node] + Around(r, i))
    ensures Ring(r[i := node])
  {
    var u := [node] + Around(r, i);
    RotatedRing(u, |u| - i);
    assert Rotated(u, |u| - i) == r[i := node];
  }

  /** list_replace: the new node takes the place of the old one, which may be the head of an empty list. */
  method ListReplace<T>(old_: Node<T>, new_: Node<T>, ghost r: seq<Node<T>>, ghost i: nat)
    requires Ring(r) && i < |r| && old_ == r[i] && new_ !in r
    modifies new_, set n | n in r
    ensures Ring(r[i := new_])
  {
    ghost var t := Around(r, i);
    FromNode(r, i);
    assert new_ !in t && forall n :: n in t ==> n in r;
    new_.next := old_.next;
    new_.next.prev := new_;
    new_.prev := old_.prev;
    new_.prev.next := new_;
    ChainKept(t);
    ApartJoined([new_], t);
    Joined([new_], t);
    InPlace(r, i, new_);
  }

  /** list_replace_init */
  method ListReplaceInit<T>(old_: Node<T>, new_: Node<T>, ghost r: seq<Node<T>>, ghost i: nat)
    requires Ring(r) && i < |r| && old_ == r[i] && new_ !in r
    modifies new_, set n | n in r
    ensures Ring(r[i := new_]) && IsList(old_, [])
  {
    ListReplace(old_, new_, r, i);
    assert old_ !in r[i := new_] by {
      assert forall j :: 0 <= j < |r| && j != i ==> r[j] != r[i];
    }
    InitListHead(old_);
  }

  /** list_empty */
  method ListEmpty<T>(head: Node<T>, ghost s: seq<Node<T>>) returns (empty: bool)
    requires IsList(head, s)
    ensures empty <==> s == []
  {
    FirstAndLast(head, s);
    empty := head.next == head;
  }

  /** list_is_singular */
  method ListIsSingular<T>(head: Node<T>, ghost s: seq<Node<T>>) returns (one: bool)
    requires IsList(head, s)
    ensures one <==> |s| == 1
  {
    FirstAndLast(head, s);
    var empty := ListEmpty(head, s);
    one := !empty && head.next == head.prev;
  }

  /** list_is_last */
  method ListIsLast<T>(list: Node<T>, head: Node<T>, ghost s: seq<Node<T>>, ghost i: nat) returns (last: bool)
    requires IsList(head, s) && i < |s| && list == s[i]
    ensures last <==> i == |s| - 1
  {
    ghost var r := [head] + s;
    assert i < |s| - 1 ==> Link(r[i + 1], r[i + 2]);
    last := list.next == head;
  }

  /** list_move within a list: the entry becomes the first. */
  method ListMove<T>(list: Node<T>, head: Node<T>, ghost s: seq<Node<T>>, ghost i: nat)
    requires IsList(head, s) && i < |s| && list == s[i]
    modifies Nodes(head, s)
    ensures IsList(head, [list] + Without(s, i))
  {
    ListDelEntry(list, head, s, i);
    assert forall n :: n in Nodes(head, Without(s, i)) ==> n in Nodes(head, s);
    ListAdd(list, head, Without(s, i));
  }

  /** list_move_tail within a list: the entry becomes the last. */
  method ListMoveTail<T>(list: Node<T>, head: Node<T>, ghost s: seq<Node<T>>, ghost i: nat)
    requires IsList(head, s) && i < |s| && list == s[i]
    modifies Nodes(head, s)
    ensures IsList(head, Without(s, i) + [list])
  {
    ListDelEntry(list, head, s, i);
    assert forall n :: n in Nodes(head, Without(s, i)) ==> n in Nodes(head, s);
    ListAddTail(list, head, Without(s, i));
  }

  /** Different lists do not share nodes. */
  lemma Apart2<T>(from: Node<T>, s: seq<Node<T>>, head: Node<T>, q: seq<Node<T>>)
    requires Disjoint([from] + s, [head] + q)
    ensures Nodes(from, s) !! Nodes(head, q)
    ensures forall n :: n in Nodes(from, s) ==> n !in [head] + q
    ensures forall n :: n in Nodes(head, q) ==> n !in [from] + s
  {}

  /** list_move from the list at `from` to the one at head. */
  method ListMoveOver<T>(list: Node<T>, head: Node<T>, ghost q: seq<Node<T>>,
                         ghost from: Node<T>, ghost s: seq<Node<T>>, ghost i: nat)
    requires IsList(from, s) && i < |s| && list == s[i]
    requires IsList(head, q) && Disjoint([from] + s, [head] + q)
    modifies Nodes(from, s), Nodes(head, q)
    ensures IsList(from, Without(s, i)) && IsList(head, [list] + q)
  {
    hide Ring;
    InNodes(from, s);
    Apart2(from, s, head, q);
    ListDelEntry(list, from, s, i);
    ListAdd(list, head, q);
  }

  /** list_move_tail from the list at `from` to the one at head. */
  method ListMoveTailOver<T>(list: Node<T>, head: Node<T>, ghost q: seq<Node<T>>,
                             ghost from: Node<T>, ghost s: seq<Node<T>>, ghost i: nat)
    requires IsList(from, s) && i < |s| && list == s[i]
    requires IsList(head, q) && Disjoint([from] + s, [head] + q)
    modifies Nodes(from, s), Nodes(head, q)
    ensures IsList(from, Without(s, i)) && IsList(head, q + [list])
  {
    hide Ring;
    InNodes(from, s);
    Apart2(from, s, head, q);
    ListDelEntry(list, from, s, i);
    ListAddTail(list, head, q);
  }

  /** list_rotate_left: the first becomes the last. */
  method ListRotateLeft<T>(head: Node<T>, ghost s: seq<Node<T>>)
    requires IsList(head, s)
    modifies Nodes(head, s)
    ensures IsList(head, if s == [] then [] else s[1..] + [s[0]])
  {
    FirstAndLast(head, s);
    var empty := ListEmpty(head, s);
    if !empty {
      var first := head.next;
      ListMoveTail(first, head, s, 0);
      assert Without(s, 0) == s[1..];
    }
  }

  /** __list_cut_position */
  method ListCutAt<T>(list: Node<T>, head: Node<T>, entry: Node<T>, ghost s: seq<Node<T>>, ghost k: nat)
    requires IsList(head, s) && list !in [head] + s && 0 < k <= |s| && entry == s[k - 1]
    modifies list, Nodes(head, s)
    ensures IsList(list, s[..k]) && IsList(head, s[k..])
  {
    hide Ring, Nodes;
    FirstAndLast(head, s);
    CutParts(s, k);
    NextEntry(head, s, k);
    InNodes(head, s);
    var newFirst := entry.next;
    SetSix(list, head, entry, newFirst);
    ghost var a, b := s[..k], s[k..];
    ChainKept(a);
    ChainKept(b);
    MakeList(list, a);
    MakeList(head, b);
  }

  /** The six stores of __list_cut_position. */
  method SetSix<T>(list: Node<T>, head: Node<T>, entry: Node<T>, newFirst: Node<T>)
    requires head.next != null && list != head && list != entry && list != newFirst && list != head.next
    requires head != entry && entry != newFirst && head.next != head && (head.next != newFirst || newFirst == head)
    modifies list, head, entry, newFirst, head.next
    ensures list.next == old(head.next) && list.prev == entry && entry.next == list && head.next == newFirst
    ensures newFirst.prev == head && old(head.next).prev == list
    ensures old(head.next) != entry ==> old(head.next).next == old(head.next.next)
    ensures old(head.next) != entry ==> entry.prev == old(entry.prev)
    ensures newFirst != head ==> newFirst.next == old(newFirst.next) && head.prev == old(head.prev)
  {
    list.next := head.next;
    list.next.prev := list;
    list.prev := entry;
    entry.next := list;
    head.next := newFirst;
    newFirst.prev := head;
  }

  lemma NextEntry<T>(head: Node<T>, s: seq<Node<T>>, k: nat)
    requires IsList(head, s) && 0 < k <= |s|
    ensures s[k - 1].next == if k < |s| then s[k] else head
  {
    var r := [head] + s;
    assert k < |s| ==> Link(r[k], r[k + 1]);
  }

  lemma CutParts<T>(s: seq<Node<T>>, k: nat)
    requires Apart(s) && Chain(s) && k <= |s|
    ensures Chain(s[..k]) && Chain(s[k..]) && Apart(s[..k]) && Apart(s[k..])
    ensures Disjoint(s[..k], s[k..])
  {
    Part(s, 0, k);
    Part(s, k, |s|);
    assert s[0..k] == s[..k] && s[k..|s|] == s[k..] && s[..k] + s[k..] == s;
    ApartParts(s[..k], s[k..]);
  }

  /**
   * list_cut_position: the entries up to and including `entry`, which is number k, go to the list
   * at `list`. If there are no entries, `list` is not even initialised; nor is it if the one entry
   * is neither `entry` nor is that the head.
   */
  method ListCutPosition<T>(list: Node<T>, head: Node<T>, entry: Node<T>, ghost s: seq<Node<T>>, ghost k: nat)
    requires IsList(head, s) && list !in [head] + s && k <= |s|
    requires entry == ([head] + s)[k] || (|s| <= 1 && entry !in [head] + s)
    modifies list, Nodes(head, s)
    ensures if s == [] || entry !in [head] + s then IsList(head, s) && list.next == old(list.next)
            && list.prev == old(list.prev)
            else IsList(list, s[..k]) && IsList(head, s[k..])
  {
    FirstAndLast(head, s);
    var empty := ListEmpty(head, s);
    if empty {
      return;
    }
    var singular := ListIsSingular(head, s);
    if singular && head.next != entry && head != entry {
      return;
    }
    if entry == head {
      InitListHead(list);
      assert k == 0;
    } else {
      assert k > 0;
      ListCutAt(list, head, entry, s, k);
    }
  }

  /** __list_splice: the entries q of a list go between prev and next, around which r is a ring. */
  method ListSpliceBetween<T>(list: Node<T>, prev: Node<T>, next: Node<T>, ghost q: seq<Node<T>>, ghost r: seq<Node<T>>)
    requires IsList(list, q) && q != [] && Ring(r) && prev == r[|r| - 1] && next == r[0]
    requires Disjoint([list] + q, r)
    modifies prev, next, q[0], q[|q| - 1]
    ensures Ring(r + q)
  {
    FirstAndLast(list, q);
    assert forall i :: 0 <= i < |q| ==> q[i] == ([list] + q)[i + 1];
    assert Disjoint(r, q);
    var first := list.next;
    var last := list.prev;
    first.prev := prev;
    prev.next := first;
    last.next := next;
    next.prev := last;
    ChainKept(r);
    ChainKept(q);
    ApartJoined(r, q);
    Joined(r, q);
  }

  /** list_splice: all entries of the list at `list` become the first ones. */
  method ListSplice<T>(list: Node<T>, head: Node<T>, ghost q: seq<Node<T>>, ghost s: seq<Node<T>>)
    requires IsList(list, q) && IsList(head, s) && Disjoint([list] + q, [head] + s)
    modifies Nodes(head, s), set n | n in q
    ensures IsList(head, q + s)
  {
    var empty := ListEmpty(list, q);
    if empty {
      assert q + s == s;
      return;
    }
    hide IsList, Chain, Apart;
    ghost var r := s + [head];
    FromFirst(head, s);
    InNodes(head, s);
    ListSpliceBetween(list, head, head.next, q, r);
    RotatedRing(r + q, |s|);
    assert Rotated(r + q, |s|) == [head] + (q + s);
  }

  /** A list seen from its first entry. */
  lemma FromFirst<T>(head: Node<T>, s: seq<Node<T>>)
    requires IsList(head, s)
    ensures var r := s + [head]; Ring(r) && head.next == r[0] && forall i :: 0 <= i < |r| ==> r[i] in [head] + s
  {
    FirstAndLast(head, s);
    RotatedRing([head] + s, 1);
    assert Rotated([head] + s, 1) == s + [head];
    assert ([head] + s)[0] == head && forall i :: 0 <= i < |s| ==> ([head] + s)[i + 1] == s[i];
  }

  /** list_splice_tail: they become the last ones. */
  method ListSpliceTail<T>(list: Node<T>, head: Node<T>, ghost q: seq<Node<T>>, ghost s: seq<Node<T>>)
    requires IsList(list, q) && IsList(head, s) && Disjoint([list] + q, [head] + s)
    modifies Nodes(head, s), set n | n in q
    ensures IsList(head, s + q)
  {
    var empty := ListEmpty(list, q);
    if empty {
      assert s + q == s;
      return;
    }
    FirstAndLast(head, s);
    assert forall n :: n in [head] + s ==> n in Nodes(head, s);
    ListSpliceBetween(list, head.prev, head, q, [head] + s);
    assert [head] + s + q == [head] + (s + q);
  }

  /** list_splice_init */
  method ListSpliceInit<T>(list: Node<T>, head: Node<T>, ghost q: seq<Node<T>>, ghost s: seq<Node<T>>)
    requires IsList(list, q) && IsList(head, s) && Disjoint([list] + q, [head] + s)
    modifies list, Nodes(head, s), set n | n in q
    ensures IsList(head, q + s) && IsList(list, [])
  {
    NotElsewhere(list, q, head, s);
    ListSplice(list, head, q, s);
    InitListHead(list);
  }

  /** list_splice_tail_init */
  method ListSpliceTailInit<T>(list: Node<T>, head: Node<T>, ghost q: seq<Node<T>>, ghost s: seq<Node<T>>)
    requires IsList(list, q) && IsList(head, s) && Disjoint([list] + q, [head] + s)
    modifies list, Nodes(head, s), set n | n in q
    ensures IsList(head, s + q) && IsList(list, [])
  {
    NotElsewhere(list, q, head, s);
    ListSpliceTail(list, head, q, s);
    InitListHead(list);
  }

  lemma NotElsewhere<T>(list: Node<T>, q: seq<Node<T>>, head: Node<T>, s: seq<Node<T>>)
    requires IsList(list, q) && Disjoint([list] + q, [head] + s)
    ensures list != head && list !in s && list !in q
  {
    FirstAndLast(list, q);
    var a, b := [list] + q, [head] + s;
    assert a[0] == list && b[0] == head && forall j :: 0 <= j < |s| ==> b[j + 1] == s[j];
  }

  lemma NodesApart<T>(list: Node<T>, head: Node<T>, s: seq<Node<T>>, k: nat)
    requires k <= |s| && list !in [head] + s && Apart([head] + s)
    ensures Disjoint([list] + s[..k], [head] + s[k..])
  {
    var r, a, b := [head] + s, [list] + s[..k], [head] + s[k..];
    forall i, j | 0 <= i < |a| && 0 <= j < |b|
      ensures a[i] != b[j]
    {
      assert b[j] == if j == 0 then r[0] else r[k + j];
      assert i > 0 ==> a[i] == r[i];
    }
  }

  /** Cutting a list and splicing the part back gives the list as it was, at every position. */
  method CutAndSplice<T>(list: Node<T>, head: Node<T>, entry: Node<T>, ghost s: seq<Node<T>>, ghost k: nat)
    requires IsList(head, s) && IsList(list, []) && list !in [head] + s && k <= |s| && entry == ([head] + s)[k]
    modifies list, Nodes(head, s)
    ensures IsList(head, s) && IsList(list, [])
  {
    ListCutPosition(list, head, entry, s, k);
    assert s[..k] + s[k..] == s;
    FirstAndLast(head, s[k..]);
    FirstAndLast(list, s[..k]);
    NodesApart(list, head, s, k);
    ListSpliceInit(list, head, s[..k], s[k..]);
  }
}
