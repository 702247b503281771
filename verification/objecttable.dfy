/**
 * The hash table behind a parson object: open addressing with linear probing in `cells`, and dense
 * arrays of items. The predicates here are about the arrays' contents; the class follows in
 * jsonobject.dfy.
 */
module ObjectTable {
  import opened Arithmetic
  import opened Bytes

  type Key = seq<Byte>

  /** OBJECT_INVALID_IX, (size_t)-1. */
  const INVALID_IX: int := 0xFFFF_FFFF_FFFF_FFFF
  const STARTING_CAPACITY: nat := 16

  /** hash_string: hash * 33 + c in an unsigned long. Keys are C strings, so they hold no zero byte. */
  function HashString(s: Key): (hash: nat)
    ensures hash < 0x1_0000_0000_0000_0000
  {
    if s == [] then 5381 else (HashString(s[..|s| - 1]) * 33 + s[|s| - 1] as int) % 0x1_0000_0000_0000_0000
  }

  /** (unsigned int)(capacity * 0.7f): the float 0.7f is 11744051 / 2^24. */
  function ItemCapacity(capacity: nat): (c: nat)
    ensures capacity > 0 ==> c < capacity
  {
    capacity * 11744051 / 0x100_0000
  }

  predicate IsPow2(n: nat) {
    n == 1 || (n > 0 && n % 2 == 0 && IsPow2(n / 2))
  }

  /** Bitwise and. */
  function And(x: nat, y: nat): nat {
    if x == 0 || y == 0 then 0 else 2 * And(x / 2, y / 2) + (if x % 2 == 1 && y % 2 == 1 then 1 else 0)
  }

  /** Masking with a power of two minus one is the remainder. */
  lemma {:induction false} AndMask(x: nat, n: nat)
    requires IsPow2(n)
    ensures And(x, n - 1) == x % n
  {
    if n > 1 {
      var m := n / 2;
      AndMask(x / 2, m);
      HalfRemainder(x, m);
    }
  }

  lemma HalfRemainder(x: nat, m: nat)
    requires m > 0
    ensures x % (2 * m) == 2 * ((x / 2) % m) + x % 2
  {
    var q, r := (x / 2) / m, (x / 2) % m;
    assert x == (2 * m) * q + (2 * r + x % 2);
    DivModUnique(x, 2 * m, q, 2 * r + x % 2);
  }

  /** The cell d steps after cell c, around the end. */
  function Around(c: nat, d: nat, capacity: nat): (x: nat)
    requires c < capacity && d <= capacity
    ensures x < capacity
  {
    if c + d < capacity then c + d else c + d - capacity
  }

  /** How many steps lead from cell a to cell b. */
  function Steps(a: nat, b: nat, capacity: nat): (d: nat)
    requires a < capacity && b < capacity
    ensures d < capacity && Around(a, d, capacity) == b
  {
    if a <= b then b - a else b + capacity - a
  }

  lemma AroundMask(c: nat, d: nat, capacity: nat)
    requires IsPow2(capacity) && c < capacity && d < capacity
    ensures And(c + d, capacity - 1) == Around(c, d, capacity)
  {
    AndMask(c + d, capacity);
    if c + d < capacity {
      DivModUnique(c + d, capacity, 0, c + d);
    } else {
      DivModUnique(c + d, capacity, 1, c + d - capacity);
    }
  }

  /** The cell where the search for a key starts. */
  function Home(hash: nat, capacity: nat): (h: nat)
    requires capacity > 0
    ensures h < capacity
  {
    hash % capacity
  }

  /**
   * cells and cell_ixs point at each other: every item has its own cell, and every cell is empty or
   * has its own item. The cell `hole` (if it is one) is left out: nothing points to it.
   */
  ghost predicate Linked(cells: seq<int>, ixs: seq<int>, hole: int) {
    && (forall t :: 0 <= t < |ixs| ==> 0 <= ixs[t] < |cells| && ixs[t] != hole && cells[ixs[t]] == t)
    && (forall c :: 0 <= c < |cells| && c != hole ==>
          cells[c] == INVALID_IX || (0 <= cells[c] < |ixs| && ixs[cells[c]] == c))
  }

  /** The cells from home up to, but not including, cell `end` are in use, and none of them is the hole. */
  ghost predicate PathFull(cells: seq<int>, home: nat, end: nat, hole: int)
    requires home < |cells| && end < |cells|
  {
    forall d :: 0 <= d < Steps(home, end, |cells|) ==>
      cells[Around(home, d, |cells|)] != INVALID_IX && Around(home, d, |cells|) != hole
  }

  /** A search for any item starting at its home cell gets to the item's cell. */
  ghost predicate Reachable(cells: seq<int>, ixs: seq<int>, hashes: seq<nat>, hole: int)
    requires |hashes| == |ixs| && |cells| > 0
    requires forall t :: 0 <= t < |ixs| ==> 0 <= ixs[t] < |cells|
  {
    forall t :: 0 <= t < |ixs| ==> PathFull(cells, Home(hashes[t], |cells|), ixs[t], hole)
  }

  /** Distinct numbers below m are at most m. */
  lemma {:induction false} Pigeonhole(s: seq<int>, m: nat)
    requires forall i :: 0 <= i < |s| ==> 0 <= s[i] < m
    requires forall i, j :: 0 <= i < j < |s| ==> s[i] != s[j]
    ensures |s| <= m
  {
    if s != [] {
      assert 0 <= s[0] < m;
      if p :| 0 <= p < |s| && s[p] == m - 1 {
        Pigeonhole(s[..p] + s[p + 1..], m - 1);
      } else {
        Pigeonhole(s, m - 1);
      }
    }
  }

  /** With fewer items than cells there is an empty cell. */
  lemma EmptyCell(cells: seq<int>, ixs: seq<int>) returns (c: nat)
    requires Linked(cells, ixs, -1) && |ixs| < |cells| <= INVALID_IX
    ensures c < |cells| && cells[c] == INVALID_IX
  {
    if forall c :: 0 <= c < |cells| ==> cells[c] != INVALID_IX {
      Pigeonhole(cells, |ixs|);
      assert false;
    }
    c :| 0 <= c < |cells| && cells[c] == INVALID_IX;
  }

  /** Key number t of the table. */
  ghost predicate KeysOk(names: seq<Key>, hashes: seq<nat>) {
    && |names| == |hashes|
    && (forall t :: 0 <= t < |names| ==> hashes[t] == HashString(names[t]))
    && (forall t, u :: 0 <= t < u < |names| ==> names[t] != names[u])
  }

  /** The whole invariant of the table's arrays, `hole` being a cell that is about to be emptied. */
  ghost predicate TableOk(cells: seq<int>, ixs: seq<int>, hashes: seq<nat>, names: seq<Key>, hole: int) {
    && |cells| > 0 && |ixs| == |names|
    && KeysOk(names, hashes)
    && Linked(cells, ixs, hole)
    && Reachable(cells, ixs, hashes, hole)
  }

  /** Empty cells are a table of no items. */
  lemma EmptyTableOk(cells: seq<int>)
    requires |cells| > 0 && forall k :: 0 <= k < |cells| ==> cells[k] == INVALID_IX
    ensures TableOk(cells, [], [], [], -1)
  {}

  lemma KeysDistinct(cells: seq<int>, ixs: seq<int>, hashes: seq<nat>, names: seq<Key>)
    requires TableOk(cells, ixs, hashes, names, -1)
    ensures forall t, u :: 0 <= t < u < |names| ==> names[t] != names[u]
  {}

  /** A table that is not full has an empty cell. */
  lemma TableHasRoom(cells: seq<int>, ixs: seq<int>, hashes: seq<nat>, names: seq<Key>) returns (c: nat)
    requires TableOk(cells, ixs, hashes, names, -1) && |ixs| < |cells| <= INVALID_IX
    ensures c < |cells| && cells[c] == INVALID_IX
  {
    c := EmptyCell(cells, ixs);
  }

  /** A cell that is not empty is the cell of the item it names, and the last item has a cell. */
  lemma CellOfItem(cells: seq<int>, ixs: seq<int>, hashes: seq<nat>, names: seq<Key>, cell: nat)
    requires TableOk(cells, ixs, hashes, names, -1) && cell < |cells| && cells[cell] != INVALID_IX
    ensures 0 <= cells[cell] < |ixs| && ixs[cells[cell]] == cell
    ensures 0 <= ixs[|ixs| - 1] < |cells| && cells[ixs[|ixs| - 1]] == |ixs| - 1
  {}

  /** A search cannot go all the way around: it comes to an empty cell. */
  lemma SearchEnds(cells: seq<int>, ixs: seq<int>, home: nat) returns (d: nat)
    requires Linked(cells, ixs, -1) && |ixs| < |cells| <= INVALID_IX && home < |cells|
    ensures d < |cells| && cells[Around(home, d, |cells|)] == INVALID_IX
  {
    var e := EmptyCell(cells, ixs);
    d := Steps(home, e, |cells|);
  }

  /** An item is found before the first empty cell of its search. */
  lemma FoundBeforeEmpty(cells: seq<int>, ixs: seq<int>, hashes: seq<nat>, names: seq<Key>, t: nat, i: nat)
    requires TableOk(cells, ixs, hashes, names, -1) && t < |ixs| < INVALID_IX && i < |cells|
    requires cells[Around(Home(hashes[t], |cells|), i, |cells|)] == INVALID_IX
    ensures Steps(Home(hashes[t], |cells|), ixs[t], |cells|) < i
  {
    assert PathFull(cells, Home(hashes[t], |cells|), ixs[t], -1);
  }

  /** The first i cells of a search for a key hold other keys. */
  ghost predicate Searched(cells: seq<int>, names: seq<Key>, key: Key, home: nat, i: nat)
    requires home < |cells| && i <= |cells|
  {
    forall d {:trigger Around(home, d, |cells|)} :: 0 <= d < i ==>
      var c := cells[Around(home, d, |cells|)];
      c != INVALID_IX && 0 <= c < |names| && names[c] != key
  }

  lemma SearchMore(cells: seq<int>, names: seq<Key>, key: Key, home: nat, i: nat)
    requires home < |cells| && i < |cells| && Searched(cells, names, key, home, i)
    requires var c := cells[Around(home, i, |cells|)]; c != INVALID_IX && 0 <= c < |names| && names[c] != key
    ensures Searched(cells, names, key, home, i + 1)
  {}

  /** An unsuccessful search ends at an empty cell, and then the key is not in the table. */
  lemma NotInTable(cells: seq<int>, ixs: seq<int>, hashes: seq<nat>, names: seq<Key>, key: Key, i: nat)
    requires TableOk(cells, ixs, hashes, names, -1) && |ixs| < INVALID_IX && i < |cells|
    requires var home := Home(HashString(key), |cells|);
             cells[Around(home, i, |cells|)] == INVALID_IX && Searched(cells, names, key, home, i)
    ensures key !in names
    ensures var home := Home(HashString(key), |cells|); PathFull(cells, home, Around(home, i, |cells|), -1)
  {
    forall t | 0 <= t < |names|
      ensures names[t] != key
    {
      if names[t] == key {
        FoundBeforeEmpty(cells, ixs, hashes, names, t, i);
        assert false;
      }
    }
  }

  /** A search cannot pass all cells. */
  lemma SearchStops(cells: seq<int>, ixs: seq<int>, hashes: seq<nat>, names: seq<Key>, key: Key, home: nat)
    requires TableOk(cells, ixs, hashes, names, -1) && |ixs| < |cells| <= INVALID_IX && home < |cells|
    ensures !Searched(cells, names, key, home, |cells|)
  {
    var d := SearchEnds(cells, ixs, home);
  }

  /** Adding an item at the empty cell where the search for its key ended. */
  lemma AddKeepsTable(cells: seq<int>, ixs: seq<int>, hashes: seq<nat>, names: seq<Key>, key: Key, cell: nat)
    requires TableOk(cells, ixs, hashes, names, -1) && key !in names && |ixs| < INVALID_IX
    requires cell < |cells| && cells[cell] == INVALID_IX
    requires PathFull(cells, Home(HashString(key), |cells|), cell, -1)
    ensures TableOk(cells[cell := |ixs|], ixs + [cell], hashes + [HashString(key)], names + [key], -1)
  {
    var cells', ixs', hashes', names' := cells[cell := |ixs|], ixs + [cell], hashes + [HashString(key)], names + [key];
    forall t | 0 <= t < |ixs'|
      ensures PathFull(cells', Home(hashes'[t], |cells|), ixs'[t], -1)
    {
      if t < |ixs| {
        assert PathFull(cells, Home(hashes[t], |cells|), ixs[t], -1);
      }
    }
    assert Linked(cells', ixs', -1);
  }

  /** The sequence with element i replaced by the last one, and the last one dropped. */
  function SwapRemoved<T>(s: seq<T>, i: nat): (r: seq<T>)
    requires i < |s|
    ensures |r| == |s| - 1
  {
    s[i := s[|s| - 1]][..|s| - 1]
  }

  /**
   * The state of the backward shift: cell i is to be emptied and cells i to j are in use. Every
   * search path is unbroken as long as cell i counts as in use, and the items in the cells up to j
   * do not depend on cell i.
   */
  ghost predicate Shifting(cells: seq<int>, ixs: seq<int>, hashes: seq<nat>, names: seq<Key>, i: nat, j: nat) {
    && i < |cells| && j < |cells| && |ixs| == |names|
    && KeysOk(names, hashes)
    && Linked(cells, ixs, i)
    && Reachable(cells, ixs, hashes, -1)
    && (forall d :: 0 <= d <= Steps(i, j, |cells|) ==> cells[Around(i, d, |cells|)] != INVALID_IX)
    && (forall t :: 0 <= t < |ixs| && Steps(i, ixs[t], |cells|) <= Steps(i, j, |cells|) ==>
          PathFull(cells, Home(hashes[t], |cells|), ixs[t], i))
  }

  lemma ShiftingFull(cells: seq<int>, ixs: seq<int>, hashes: seq<nat>, names: seq<Key>, i: nat, j: nat)
    requires Shifting(cells, ixs, hashes, names, i, j)
    ensures i < |cells| && j < |cells| && cells[i] != INVALID_IX && cells[j] != INVALID_IX
  {
    assert Around(i, 0, |cells|) == i && Around(i, Steps(i, j, |cells|), |cells|) == j;
  }

  lemma KeysAfterRemoval(names: seq<Key>, hashes: seq<nat>, it: nat)
    requires KeysOk(names, hashes) && it < |names|
    ensures KeysOk(SwapRemoved(names, it), SwapRemoved(hashes, it))
  {}

  lemma LinksAfterRemoval(cells: seq<int>, ixs: seq<int>, it: nat, cells': seq<int>)
    requires Linked(cells, ixs, -1) && it < |ixs| < INVALID_IX
    requires cells' == if it < |ixs| - 1 then cells[ixs[|ixs| - 1] := it] else cells
    ensures Linked(cells', SwapRemoved(ixs, it), ixs[it])
    ensures forall c :: 0 <= c < |cells| ==> (cells'[c] == INVALID_IX <==> cells[c] == INVALID_IX)
  {}

  lemma PathsAfterRemoval(cells: seq<int>, ixs: seq<int>, hashes: seq<nat>, it: nat, cells': seq<int>)
    requires |hashes| == |ixs| && it < |ixs| && |cells'| == |cells| > 0
    requires forall t :: 0 <= t < |ixs| ==> 0 <= ixs[t] < |cells|
    requires forall c :: 0 <= c < |cells| ==> (cells'[c] == INVALID_IX <==> cells[c] == INVALID_IX)
    requires Reachable(cells, ixs, hashes, -1)
    ensures Reachable(cells', SwapRemoved(ixs, it), SwapRemoved(hashes, it), -1)
  {
    var ixs', hashes' := SwapRemoved(ixs, it), SwapRemoved(hashes, it);
    forall t | 0 <= t < |ixs'|
      ensures PathFull(cells', Home(hashes'[t], |cells|), ixs'[t], -1)
    {
      var u := if t == it then |ixs| - 1 else t;
      assert PathFull(cells, Home(hashes[u], |cells|), ixs[u], -1);
    }
  }

  /** Taking item `it` out of the dense arrays leaves its cell to be emptied. */
  lemma StartShift(cells: seq<int>, ixs: seq<int>, hashes: seq<nat>, names: seq<Key>, it: nat, cells': seq<int>)
    requires TableOk(cells, ixs, hashes, names, -1) && it < |ixs| < INVALID_IX
    requires cells' == if it < |ixs| - 1 then cells[ixs[|ixs| - 1] := it] else cells
    ensures Shifting(cells', SwapRemoved(ixs, it), SwapRemoved(hashes, it), SwapRemoved(names, it), ixs[it], ixs[it])
  {
    hide Reachable, KeysOk, SwapRemoved;
    KeysAfterRemoval(names, hashes, it);
    LinksAfterRemoval(cells, ixs, it, cells');
    PathsAfterRemoval(cells, ixs, hashes, it, cells');
    var ixs' := SwapRemoved(ixs, it);
    assert forall t :: 0 <= t < |ixs'| ==> ixs'[t] != ixs[it];
  }

  /** Cell k lies on the way from i (exclusive) to j (inclusive) unless this test of the removal loop holds. */
  predicate MoveTest(i: nat, j: nat, k: nat) {
    (j > i && (k <= i || k > j)) || (j < i && (k <= i && k > j))
  }

  lemma MoveTestSteps(i: nat, j: nat, k: nat, capacity: nat)
    requires i < capacity && j < capacity && k < capacity && i != j
    ensures MoveTest(i, j, k) <==> Steps(i, j, capacity) <= Steps(k, j, capacity)
  {}

  /** The next item does not depend on cell i and stays where it is. */
  lemma ShiftPast(cells: seq<int>, ixs: seq<int>, hashes: seq<nat>, names: seq<Key>, i: nat, j: nat)
    requires Shifting(cells, ixs, hashes, names, i, j)
    requires Steps(i, j, |cells|) + 1 < |cells|
    requires var j' := Around(j, 1, |cells|);
             cells[j'] != INVALID_IX && !MoveTest(i, j', Home(hashes[cells[j']], |cells|))
    ensures Shifting(cells, ixs, hashes, names, i, Around(j, 1, |cells|))
  {
    var j' := Around(j, 1, |cells|);
    var u := cells[j'];
    var k := Home(hashes[u], |cells|);
    assert Steps(i, j', |cells|) == Steps(i, j, |cells|) + 1;
    MoveTestSteps(i, j', k, |cells|);
    assert PathFull(cells, k, ixs[u], -1);
    assert PathFull(cells, k, j', i);
    forall t | 0 <= t < |ixs| && Steps(i, ixs[t], |cells|) <= Steps(i, j', |cells|)
      ensures PathFull(cells, Home(hashes[t], |cells|), ixs[t], i)
    {
      if ixs[t] == j' {
        assert t == u;
      }
    }
  }

  /** The next item depends on cell i: it moves there and its own cell is to be emptied. */
  lemma ShiftMove(cells: seq<int>, ixs: seq<int>, hashes: seq<nat>, names: seq<Key>, i: nat, j: nat)
    requires Shifting(cells, ixs, hashes, names, i, j) && |ixs| < INVALID_IX
    requires Steps(i, j, |cells|) + 1 < |cells|
    requires var j' := Around(j, 1, |cells|);
             cells[j'] != INVALID_IX && MoveTest(i, j', Home(hashes[cells[j']], |cells|))
    ensures var j' := Around(j, 1, |cells|);
            Shifting(cells[i := cells[j']], ixs[cells[j'] := i], hashes, names, j', j')
  {
    var j' := Around(j, 1, |cells|);
    var u := cells[j'];
    var k := Home(hashes[u], |cells|);
    MoveTestSteps(i, j', k, |cells|);
    var cells', ixs' := cells[i := u], ixs[u := i];
    forall t | 0 <= t < |ixs'|
      ensures PathFull(cells', Home(hashes[t], |cells|), ixs'[t], -1)
    {
      assert PathFull(cells, Home(hashes[t], |cells|), ixs[t], -1);
    }
    assert Linked(cells', ixs', j');
  }

  /** An empty cell is next: nothing depends on cell i any more. */
  lemma ShiftDone(cells: seq<int>, ixs: seq<int>, hashes: seq<nat>, names: seq<Key>, i: nat, j: nat)
    requires Shifting(cells, ixs, hashes, names, i, j) && |ixs| < INVALID_IX
    requires Steps(i, j, |cells|) + 1 < |cells|
    requires cells[Around(j, 1, |cells|)] == INVALID_IX
    ensures TableOk(cells[i := INVALID_IX], ixs, hashes, names, -1)
  {
    var j' := Around(j, 1, |cells|);
    var e := Steps(i, j', |cells|);
    assert e == Steps(i, j, |cells|) + 1;
    var cells' := cells[i := INVALID_IX];
    forall t | 0 <= t < |ixs|
      ensures PathFull(cells', Home(hashes[t], |cells|), ixs[t], -1)
    {
      var home := Home(hashes[t], |cells|);
      assert PathFull(cells, home, ixs[t], -1);
      if Steps(i, ixs[t], |cells|) > Steps(i, j, |cells|) {
        AvoidsHole(cells, home, ixs[t], i, j');
      }
      assert PathFull(cells, home, ixs[t], i);
    }
  }

  /** A path through cell i that ends beyond cell j' passes j', so j' is in use. */
  lemma PathThrough(cells: seq<int>, home: nat, end: nat, i: nat, j': nat, d: nat)
    requires home < |cells| && end < |cells| && i < |cells| && j' < |cells|
    requires PathFull(cells, home, end, -1) && j' != end
    requires Steps(i, j', |cells|) <= Steps(i, end, |cells|)
    requires d < Steps(home, end, |cells|) && Around(home, d, |cells|) == i
    ensures cells[j'] != INVALID_IX
  {
    assert Around(home, d + Steps(i, j', |cells|), |cells|) == j';
  }

  /** A path that ends beyond the empty cell j' cannot have come through cell i before it. */
  lemma AvoidsHole(cells: seq<int>, home: nat, end: nat, i: nat, j': nat)
    requires home < |cells| && end < |cells| && i < |cells| && j' < |cells|
    requires PathFull(cells, home, end, -1) && cells[j'] == INVALID_IX && j' != end
    requires Steps(i, j', |cells|) <= Steps(i, end, |cells|)
    ensures PathFull(cells, home, end, i)
  {
    forall d | 0 <= d < Steps(home, end, |cells|)
      ensures Around(home, d, |cells|) != i
    {
      if Around(home, d, |cells|) == i {
        PathThrough(cells, home, end, i, j', d);
        assert false;
      }
    }
  }
}
