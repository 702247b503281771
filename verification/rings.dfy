/** Circular doubly linked lists through nodes that are embedded in other records. */
module Rings {
  /** struct dl_list, struct list_head. The record a node is embedded in is part of the node. */
  class Node<T> {
    var next: Node?<T>
    var prev: Node?<T>
    const entry: T

    constructor (entry: T)
      ensures this.entry == entry && next == null && prev == null
    {
      this.entry, next, prev := entry, null, null;
    }
  }

  /** a is followed by b, and b knows it. */
  ghost predicate Link<T>(a: Node<T>, b: Node<T>)
    reads a, b
  {
    a.next == b && b.prev == a
  }

  /** The nodes follow one another from the first to the last. */
  ghost predicate Chain<T>(r: seq<Node<T>>)
    reads r
  {
    forall i :: 0 < i < |r| ==> Link(r[i - 1], r[i])
  }

  /** The nodes form a ring in this order: distinct, and next and prev mirror each other. */
  ghost predicate Ring<T>(r: seq<Node<T>>)
    reads r
  {
    |r| > 0 && Apart(r) && Chain(r) && Link(r[|r| - 1], r[0])
  }

  ghost predicate Apart<T>(r: seq<Node<T>>) {
    forall i, j :: 0 <= i < j < |r| ==> r[i] != r[j]
  }

  /** No node is in both. */
  ghost predicate Disjoint<T>(a: seq<Node<T>>, b: seq<Node<T>>) {
    forall i, j :: 0 <= i < |a| && 0 <= j < |b| ==> a[i] != b[j]
  }

  /** Chains that are linked at their ends are a chain. */
  lemma Joined<T>(a: seq<Node<T>>, b: seq<Node<T>>)
    requires Chain(a) && Chain(b) && (a != [] && b != [] ==> Link(a[|a| - 1], b[0]))
    ensures Chain(a + b)
  {
    var r := a + b;
    forall i | 0 < i < |r|
      ensures Link(r[i - 1], r[i])
    {
      if i < |a| {
        assert r[i - 1] == a[i - 1] && r[i] == a[i];
      } else if i > |a| {
        assert r[i - 1] == b[i - |a| - 1] && r[i] == b[i - |a|];
      } else if |a| > 0 {
        assert r[i - 1] == a[|a| - 1] && r[i] == b[0];
      }
    }
  }

  /** A part of a chain is a chain. */
  lemma Part<T>(r: seq<Node<T>>, i: nat, j: nat)
    requires Chain(r) && i <= j <= |r|
    ensures Chain(r[i..j])
  {
    var s := r[i..j];
    forall k | 0 < k < |s|
      ensures Link(s[k - 1], s[k])
    {
      assert s[k - 1] == r[i + k - 1] && s[k] == r[i + k];
    }
  }

  /** The same ring from another node on. */
  ghost function Rotated<T>(r: seq<Node<T>>, i: nat): seq<Node<T>>
    requires i <= |r|
  {
    r[i..] + r[..i]
  }

  lemma RotatedRing<T>(r: seq<Node<T>>, i: nat)
    requires Ring(r) && i <= |r|
    ensures Ring(Rotated(r, i))
  {
    Part(r, i, |r|);
    Part(r, 0, i);
    Joined(r[i..], r[..i]);
    var s := Rotated(r, i);
    if 0 < i < |r| {
      assert Link(r[i - 1], r[i]);
    }
    assert i == 0 || i == |r| ==> s == r;
  }

  /** The list at head holds the nodes s, in this order. */
  ghost predicate IsList<T>(head: Node<T>, s: seq<Node<T>>)
    reads head, s
  {
    Ring([head] + s)
  }

  /** The set of the nodes of a list. */
  ghost function Nodes<T>(head: Node<T>, s: seq<Node<T>>): set<Node<T>> {
    set n | n in [head] + s
  }

  /** A chain stays one when only what is before its first and after its last node changes. */
  twostate lemma ChainKept<T>(r: seq<Node<T>>)
    requires old(Chain(r)) && Apart(r)
    requires forall i :: 0 <= i < |r| - 1 ==> r[i].next == old(r[i].next)
    requires forall i :: 0 < i < |r| ==> r[i].prev == old(r[i].prev)
    ensures Chain(r)
  {
    forall i | 0 < i < |r|
      ensures Link(r[i - 1], r[i])
    {
      assert old(Link(r[i - 1], r[i]));
    }
  }

  lemma ApartParts<T>(a: seq<Node<T>>, b: seq<Node<T>>)
    requires Apart(a + b)
    ensures Apart(a) && Apart(b) && Disjoint(a, b)
  {
    forall i, j | 0 <= i < j < |a|
      ensures a[i] != a[j]
    {
      assert a[i] == (a + b)[i] && a[j] == (a + b)[j];
    }
    forall i, j | 0 <= i < j < |b|
      ensures b[i] != b[j]
    {
      assert b[i] == (a + b)[|a| + i] && b[j] == (a + b)[|a| + j];
    }
    forall i, j | 0 <= i < |a| && 0 <= j < |b|
      ensures a[i] != b[j]
    {
      assert a[i] == (a + b)[i] && b[j] == (a + b)[|a| + j];
    }
  }

  lemma ApartJoined<T>(a: seq<Node<T>>, b: seq<Node<T>>)
    requires Apart(a) && Apart(b) && Disjoint(a, b)
    ensures Apart(a + b)
  {
    var r := a + b;
    forall i, j | 0 <= i < j < |r|
      ensures r[i] != r[j]
    {
      if j < |a| {
        assert r[i] == a[i] && r[j] == a[j];
      } else if i >= |a| {
        assert r[i] == b[i - |a|] && r[j] == b[j - |a|];
      } else {
        assert r[i] == a[i] && r[j] == b[j - |a|];
      }
    }
  }

  // Lists seen from their heads and from their entries

  /** What is left of a list without entry i, seen from that entry. */
  ghost function Others<T>(head: Node<T>, s: seq<Node<T>>, i: nat): seq<Node<T>>
    requires i < |s|
  {
    s[i + 1..] + [head] + s[..i]
  }

  ghost function Without<T>(s: seq<T>, i: nat): seq<T>
    requires i < |s|
  {
    s[..i] + s[i + 1..]
  }

  lemma FromEntry<T>(head: Node<T>, s: seq<Node<T>>, i: nat)
    requires IsList(head, s) && i < |s|
    ensures Ring([s[i]] + Others(head, s, i)) && s[i] !in Others(head, s, i)
    ensures s[i].next == Others(head, s, i)[0] && s[i].prev == Others(head, s, i)[|s| - 1]
  {
    RotatedRing([head] + s, i + 1);
    assert Rotated([head] + s, i + 1) == [s[i]] + Others(head, s, i);
    ApartParts([s[i]], Others(head, s, i));
    var r := [s[i]] + Others(head, s, i);
    assert Link(r[0], r[1]) && Link(r[|s|], r[0]);
  }

  lemma FromHead<T>(head: Node<T>, s: seq<Node<T>>, i: nat)
    requires i < |s| && Ring(Others(head, s, i))
    ensures IsList(head, Without(s, i))
  {
    RotatedRing(Others(head, s, i), |s| - i - 1);
    assert Rotated(Others(head, s, i), |s| - i - 1) == [head] + Without(s, i);
  }

  lemma FirstAndLast<T>(head: Node<T>, s: seq<Node<T>>)
    requires IsList(head, s)
    ensures head !in s && Apart(s) && Chain(s)
    ensures head.next == (if s == [] then head else s[0]) && head.prev == (if s == [] then head else s[|s| - 1])
    ensures s != [] ==> s[0].prev == head && s[|s| - 1].next == head
    ensures |s| > 1 ==> s[0] != s[|s| - 1]
  {
    var r := [head] + s;
    assert Link(r[|s|], r[0]) && (s != [] ==> Link(r[0], r[1]));
    ApartParts([head], s);
    Part(r, 1, |r|);
    assert r[1..|r|] == s;
  }

  /** A chain closed through a head is a list. */
  lemma MakeList<T>(head: Node<T>, s: seq<Node<T>>)
    requires Chain(s) && Apart(s) && head !in s
    requires head.next == (if s == [] then head else s[0]) && head.prev == (if s == [] then head else s[|s| - 1])
    requires s != [] ==> s[0].prev == head && s[|s| - 1].next == head
    ensures IsList(head, s)
  {
    ApartJoined([head], s);
    assert s != [] ==> Link(head, s[0]) && Link(s[|s| - 1], head);
    Joined([head], s);
    assert s == [] ==> [head] + s == [head];
  }

  lemma InNodes<T>(head: Node<T>, s: seq<Node<T>>)
    ensures forall i :: 0 <= i < |s| ==> s[i] in Nodes(head, s)
    ensures head in Nodes(head, s)
  {
    var r := [head] + s;
    assert r[0] == head && forall i :: 0 <= i < |s| ==> r[i + 1] == s[i];
  }
}
