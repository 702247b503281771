/** A parson object: the table's arrays and the operations that change them in place. */
module JsonObjects {
  import opened Arithmetic
  import opened Bytes
  import opened ObjectTable

  /** With 2^32 cells the loop of json_object_init, which counts in an unsigned int, would not end. */
  const MAX_CELLS := 0x8000_0000

  datatype Status = JSONSuccess | JSONFailure

  /** What an object holds: its keys, in order, and their values. */
  datatype Table<+V> = Table(names: seq<Key>, values: seq<V>) {
    ghost predicate Ok() {
      && |names| == |values|
      && forall t, u :: 0 <= t < u < |names| ==> names[t] != names[u]
    }
  }

  /** The first place of a key, or the length if there is none. */
  function Find(names: seq<Key>, key: Key): (t: nat)
    ensures t <= |names|
    ensures t < |names| ==> names[t] == key
    ensures t == |names| <==> key !in names
    ensures forall u :: 0 <= u < t ==> names[u] != key
  {
    if names == [] then 0
    else if names[0] == key then 0
    else 1 + Find(names[1..], key)
  }

  datatype Op<+V> = Add(key: Key, value: V) | Set(key: Key, value: V) | Get(key: Key) | Remove(key: Key)

  /** What an operation answers: a status, or the value found. */
  datatype Answer<+V> = Status(status: Status) | Value(found: Option<V>)

  /** An operation on the ordered contents. New keys go to the end; a removed key's place is taken by the last one. */
  function TableStep<V>(t: Table<V>, op: Op<V>): (r: (Table<V>, Answer<V>))
    requires |t.names| == |t.values|
    ensures |r.0.names| == |r.0.values|
  {
    var i := Find(t.names, op.key);
    match op
    case Add(key, value) =>
      if i < |t.names| then (t, Status(JSONFailure))
      else (Table(t.names + [key], t.values + [value]), Status(JSONSuccess))
    case Set(key, value) =>
      if i < |t.names| then (t.(values := t.values[i := value]), Status(JSONSuccess))
      else (Table(t.names + [key], t.values + [value]), Status(JSONSuccess))
    case Get(key) =>
      (t, Value(if i < |t.names| then Some(t.values[i]) else None))
    case Remove(key) =>
      if i < |t.names| then (Table(SwapRemoved(t.names, i), SwapRemoved(t.values, i)), Status(JSONSuccess))
      else (t, Status(JSONFailure))
  }

  class JsonObject<V(0)> {
    var cells: array<int>
    var hashes: array<nat>
    var names: array<Key>
    var values: array<V>
    var cellIxs: array<int>
    var count: nat

    ghost predicate Separate()
      reads this
    {
      && cells != cellIxs && hashes as object !in {cells as object, cellIxs}
      && names as object !in {cells as object, cellIxs, hashes}
      && values as object !in {cells as object, cellIxs, hashes, names}
    }

    ghost predicate Valid()
      reads this, cells, hashes, names, values, cellIxs
    {
      && Separate()
      && hashes.Length == names.Length && values.Length == names.Length && cellIxs.Length == names.Length
      && names.Length == ItemCapacity(cells.Length)
      && count <= names.Length
      && cells.Length <= MAX_CELLS
      && (cells.Length == 0 ||
          (cells.Length >= STARTING_CAPACITY && IsPow2(cells.Length)
           && TableOk(cells[..], cellIxs[..count], hashes[..count], names[..count], -1)))
    }

    ghost function Contents(): Table<V>
      reads this, names, values
      requires count <= names.Length && count <= values.Length
    {
      Table(names[..count], values[..count])
    }

    ghost function Arrays(): set<object>
      reads this
    {
      {cells, hashes, names, values, cellIxs}
    }

    /** json_object_init. Capacities are zero or powers of two from 16 on. */
    constructor (capacity: nat)
      requires capacity == 0 || (capacity >= STARTING_CAPACITY && IsPow2(capacity))
      requires capacity <= MAX_CELLS
      ensures Valid() && Contents() == Table([], []) && cells.Length == capacity
      ensures fresh(Arrays())
    {
      hide IsPow2, TableOk;
      var itemCapacity := ItemCapacity(capacity);
      var c := new int[capacity];
      for i := 0 to capacity
        invariant forall k :: 0 <= k < i ==> c[k] == INVALID_IX
      {
        c[i] := INVALID_IX;
      }
      cells := c;
      hashes := new nat[itemCapacity];
      names := new Key[itemCapacity];
      values := new V[itemCapacity];
      cellIxs := new int[itemCapacity];
      count := 0;
      new;
      assert hashes[..count] == [] && names[..count] == [] && cellIxs[..count] == [] && values[..count] == [];
      if capacity > 0 {
        EmptyTableOk(c[..]);
      }
    }

    /**
     * json_object_get_cell_ix: the cell of the key, or the empty cell where its search ends. With
     * no cells at all the answer is OBJECT_INVALID_IX.
     */
    method GetCellIx(key: Key, hash: nat) returns (cellIx: int, found: bool)
      requires Valid() && hash == HashString(key)
      ensures found <==> key in names[..count]
      ensures found ==> 0 <= cellIx < cells.Length && cells[cellIx] == Find(names[..count], key)
      ensures !found && cells.Length > 0 ==>
                && 0 <= cellIx < cells.Length && cells[cellIx] == INVALID_IX
                && PathFull(cells[..], Home(hash, cells.Length), cellIx, -1)
      ensures cells.Length == 0 ==> cellIx == INVALID_IX
    {
      hide IsPow2, HashString, TableOk, Searched, PathFull, Find;
      found := false;
      if cells.Length == 0 {
        return INVALID_IX, false;
      }
      var home := And(hash, cells.Length - 1);
      AndMask(hash, cells.Length);
      ghost var cs, ixs, hs, ns := cells[..], cellIxs[..count], hashes[..count], names[..count];
      NothingSearched(cs, ns, key, home);
      var i := 0;
      while i < cells.Length
        invariant 0 <= i <= cells.Length && Searched(cs, ns, key, home, i)
      {
        var ix := And(home + i, cells.Length - 1);
        AroundMask(home, i, cells.Length);
        var cell := cells[ix];
        assert cs[ix] == cell;
        if cell == INVALID_IX {
          NotInTable(cs, ixs, hs, ns, key, i);
          return ix, false;
        }
        CellOfItem(cs, ixs, hs, ns, ix);
        assert ns[cell] == names[cell] && hs[cell] == hashes[cell];
        HashOfItem(cs, ixs, hs, ns, cell);
        if hash == hashes[cell] && names[cell] == key {
          FindUnique(ns, cell);
          return ix, true;
        }
        SearchMore(cs, ns, key, home, i);
        i := i + 1;
      }
      SearchStops(cs, ixs, hs, ns, key, home);
      assert false;
    }

    /** json_object_getn_value */
    method GetnValue(name: Key) returns (value: Option<V>)
      requires Valid()
      ensures (Contents(), Answer.Value(value)) == TableStep(Contents(), Get(name))
    {
      var cellIx, found := GetCellIx(name, HashString(name));
      if !found {
        return None;
      }
      var itemIx := cells[cellIx];
      return Some(values[itemIx]);
    }

    /** The stores that append an item at cell cellIx, the empty cell where its search ended. */
    method Append(name: Key, value: V, cellIx: nat, hash: nat)
      requires Valid() && count < names.Length && hash == HashString(name) && name !in names[..count]
      requires cellIx < cells.Length && cells[cellIx] == INVALID_IX
      requires PathFull(cells[..], Home(hash, cells.Length), cellIx, -1)
      modifies this`count, cells, hashes, names, values, cellIxs
      ensures Valid()
      ensures Contents() == Table(old(Contents().names) + [name], old(Contents().values) + [value])
    {
      AddKeepsTable(cells[..], cellIxs[..count], hashes[..count], names[..count], name, cellIx);
      names[count] := name;
      cells[cellIx] := count;
      values[count] := value;
      cellIxs[count] := cellIx;
      hashes[count] := hash;
      count := count + 1;
      assert cells[..] == old(cells[..])[cellIx := old(count)];
      assert cellIxs[..count] == old(cellIxs[..count]) + [cellIx];
      assert hashes[..count] == old(hashes[..count]) + [hash];
      assert names[..count] == old(names[..count]) + [name];
      assert values[..count] == old(values[..count]) + [value];
    }

    /** The loop of json_object_grow_and_rehash: every item is added to the new object, in order. */
    method AddAllTo(newObject: JsonObject<V>)
      requires count <= names.Length && count <= values.Length && Contents().Ok()
      requires newObject.Valid() && newObject.Contents() == Table([], [])
      requires count < newObject.names.Length
      requires newObject != this && Arrays() !! newObject.Arrays()
      modifies newObject, newObject.Arrays()
      ensures newObject.Valid() && newObject.Contents() == Contents()
      ensures newObject.Arrays() == old(newObject.Arrays()) && newObject.cells == old(newObject.cells)
      decreases 1
    {
      hide TableOk, IsPow2, ItemCapacity, Find;
      for i := 0 to count
        invariant newObject.Valid() && newObject.Contents() == Table(names[..i], values[..i])
        invariant newObject.Arrays() == old(newObject.Arrays()) && newObject.cells == old(newObject.cells)
      {
        assert names[i] !in names[..i] by { assert names[..count][i] == names[i]; }
        assert names[..i + 1] == names[..i] + [names[i]] && values[..i + 1] == values[..i] + [values[i]];
        var res := newObject.Add(names[i], values[i]);
      }
    }

    /** No key is held twice. */
    lemma KeysOnce()
      requires Valid()
      ensures Contents().Ok()
    {
      if cells.Length > 0 {
        KeysDistinct(cells[..], cellIxs[..count], hashes[..count], names[..count]);
      }
    }

    /** json_object_grow_and_rehash: twice the cells, the same items in the same order. */
    method GrowAndRehash()
      requires Valid() && 2 * cells.Length <= MAX_CELLS
      modifies this
      ensures Valid() && Contents() == old(Contents())
      ensures fresh(Arrays()) && count < names.Length
      decreases 2
    {
      hide TableOk, IsPow2, ItemCapacity, Table.Ok;
      var newCapacity := if cells.Length * 2 > STARTING_CAPACITY then cells.Length * 2 else STARTING_CAPACITY;
      CapacityGrows(cells.Length);
      var newObject := new JsonObject<V>(newCapacity);
      KeysOnce();
      AddAllTo(newObject);
      TakeOver(newObject);
    }

    /** *object = new_object */
    method TakeOver(newObject: JsonObject<V>)
      requires newObject.Valid() && this != newObject
      modifies this
      ensures Valid() && Contents() == newObject.Contents() && Arrays() == newObject.Arrays()
              && names == newObject.names
    {
      hide TableOk, IsPow2, ItemCapacity;
      cells, hashes, names, values, cellIxs :=
        newObject.cells, newObject.hashes, newObject.names, newObject.values, newObject.cellIxs;
      count := newObject.count;
    }

    /** json_object_add. A table of 2^31 cells cannot grow. */
    method Add(name: Key, value: V) returns (status: Status)
      requires Valid() && (count < names.Length || 2 * cells.Length <= MAX_CELLS)
      modifies this, cells, hashes, names, values, cellIxs
      ensures Valid()
      ensures (Contents(), Answer.Status(status)) == TableStep(old(Contents()), Op.Add(name, value))
      ensures old(name !in names[..count]) ==>
                Contents() == Table(old(Contents().names) + [name], old(Contents().values) + [value])
      ensures fresh(Arrays() - old(Arrays()))
      ensures old(count) < old(names.Length) ==> Arrays() == old(Arrays()) && cells == old(cells)
      decreases if count >= names.Length then 3 else 0
    {
      hide TableOk, IsPow2, PathFull, HashString;
      var hash := HashString(name);
      var cellIx, found := GetCellIx(name, hash);
      if found {
        return JSONFailure;
      }
      if count >= names.Length {
        GrowAndRehash();
        cellIx, found := GetCellIx(name, hash);
      }
      Append(name, value, cellIx, hash);
      return JSONSuccess;
    }

    /** json_object_set_value: replaces the value of a key or appends it. */
    method SetValue(name: Key, value: V) returns (status: Status)
      requires Valid() && (count < names.Length || 2 * cells.Length <= MAX_CELLS)
      modifies this, cells, hashes, names, values, cellIxs
      ensures Valid()
      ensures (Contents(), Answer.Status(status)) == TableStep(old(Contents()), Set(name, value))
      ensures fresh(Arrays() - old(Arrays()))
    {
      hide TableOk, IsPow2, PathFull, HashString;
      var hash := HashString(name);
      var cellIx, found := GetCellIx(name, hash);
      if found {
        var itemIx := cells[cellIx];
        values[itemIx] := value;
        assert values[..count] == old(values[..count])[itemIx := value];
        return JSONSuccess;
      }
      if count >= names.Length {
        GrowAndRehash();
        cellIx, found := GetCellIx(name, hash);
      }
      Append(name, value, cellIx, hash);
      return JSONSuccess;
    }

    /**
     * json_object_remove_internal: the last item takes the removed one's place, and the cells after
     * the removed item's are shifted back so that no search path is broken.
     */
    method Remove(name: Key) returns (status: Status)
      requires Valid()
      modifies this, cells, hashes, names, values, cellIxs
      ensures Valid() && Arrays() == old(Arrays())
      ensures (Contents(), Answer.Status(status)) == TableStep(old(Contents()), Op.Remove(name))
    {
      hide TableOk, PathFull, IsPow2, HashString, SwapRemoved;
      var hash := HashString(name);
      var cell, found := GetCellIx(name, hash);
      if !found {
        return JSONFailure;
      }
      RemoveAt(cell);
      return JSONSuccess;
    }

    method RemoveAt(cell: nat)
      requires Valid() && cell < cells.Length && cells[cell] != INVALID_IX
      modifies this, cells, hashes, names, values, cellIxs
      ensures Valid() && Arrays() == old(Arrays())
      ensures 0 <= old(cells[cell]) < old(count)
      ensures Contents() == Table(SwapRemoved(old(names[..count]), old(cells[cell])),
              SwapRemoved(old(values[..count]), old(cells[cell])))
    {
      hide TableOk, Shifting, SwapRemoved, PathFull, IsPow2;
      ghost var cs, ixs, hs, ns := cells[..], cellIxs[..count], hashes[..count], names[..count];
      ghost var e := TableHasRoom(cs, ixs, hs, ns);
      CellOfItem(cs, ixs, hs, ns, cell);
      var itemIx := cells[cell];
      assert ixs[count - 1] == cellIxs[count - 1];
      RemoveItem(itemIx);
      StartShift(cs, ixs, hs, ns, itemIx, cells[..]);
      ShiftBack(cell, e);
    }

    /** One operation. */
    method Do(op: Op<V>) returns (a: Answer<V>)
      requires Valid() && (op.Add? || op.Set? ==> count < ItemCapacity(MAX_CELLS))
      modifies this, cells, hashes, names, values, cellIxs
      ensures Valid() && fresh(Arrays() - old(Arrays()))
      ensures (Contents(), a) == TableStep(old(Contents()), op)
      ensures count <= old(count) + 1
    {
      hide TableOk, IsPow2, Find, SwapRemoved;
      match op
      case Add(key, value) =>
        MayGrow();
        var status := Add(key, value);
        a := Answer.Status(status);
      case Set(key, value) =>
        MayGrow();
        var status := SetValue(key, value);
        a := Answer.Status(status);
      case Get(key) =>
        var found := GetnValue(key);
        a := Value(found);
      case Remove(key) =>
        var status := Remove(key);
        a := Answer.Status(status);
    }

    /** A table that is full can grow as long as it has room for fewer items than the largest one. */
    lemma MayGrow()
      requires Valid() && count < ItemCapacity(MAX_CELLS)
      ensures count < names.Length || 2 * cells.Length <= MAX_CELLS
    {
      if 2 * cells.Length > MAX_CELLS {
        HalfTheCells();
        NextPow2(cells.Length, 0x4000_0000);
      }
    }

    method DoAll(ops: seq<Op<V>>) returns (answers: seq<Answer<V>>)
      requires Valid() && count + |ops| <= ItemCapacity(MAX_CELLS)
      modifies this, cells, hashes, names, values, cellIxs
      ensures Valid() && fresh(Arrays() - old(Arrays()))
      ensures (Contents(), answers) == TableRun(old(Contents()), ops)
      decreases |ops|
    {
      hide TableOk, IsPow2, TableStep, ItemCapacity, TableRun;
      ghost var before := Contents();
      TableRunNext(before, ops);
      if ops == [] {
        return [];
      }
      var a := Do(ops[0]);
      ghost var arrays := Arrays();
      assert fresh(arrays - old(Arrays()));
      var rest := DoAll(ops[1..]);
      assert fresh(Arrays() - arrays);
      return [a] + rest;
    }

    /** Any operations on the object, one after another, are those operations on a finite map. */
    method Run(ops: seq<Op<V>>) returns (answers: seq<Answer<V>>)
      requires Valid() && count + |ops| <= ItemCapacity(MAX_CELLS)
      modifies this, cells, hashes, names, values, cellIxs
      ensures Valid() && Contents().Ok() && fresh(Arrays() - old(Arrays()))
      ensures (Contents(), answers) == TableRun(old(Contents()), ops)
      ensures (ToMap(Contents()), answers) == MapRun(old(ToMap(Contents())), ops)
    {
      hide TableOk, IsPow2, TableRun, MapRun, ToMap, Table.Ok, ItemCapacity;
      KeysOnce();
      ghost var t0 := Contents();
      answers := DoAll(ops);
      RunRefinesMap(t0, ops);
    }

    /** The dense arrays lose an item: the last one is moved into its place. */
    method RemoveItem(itemIx: nat)
      requires Separate() && itemIx < count <= names.Length && count <= values.Length
      requires count <= hashes.Length && count <= cellIxs.Length && 0 <= cellIxs[count - 1] < cells.Length
      modifies this`count, cells, hashes, names, values, cellIxs
      ensures count == old(count) - 1
      ensures names[..count] == SwapRemoved(old(names[..count]), itemIx)
      ensures values[..count] == SwapRemoved(old(values[..count]), itemIx)
      ensures cellIxs[..count] == SwapRemoved(old(cellIxs[..count]), itemIx)
      ensures hashes[..count] == SwapRemoved(old(hashes[..count]), itemIx)
      ensures cells[..] == if itemIx < count then old(cells[..])[old(cellIxs[count - 1]) := itemIx] else old(cells[..])
    {
      var lastItemIx := count - 1;
      if itemIx < lastItemIx {
        names[itemIx] := names[lastItemIx];
        values[itemIx] := values[lastItemIx];
        cellIxs[itemIx] := cellIxs[lastItemIx];
        hashes[itemIx] := hashes[lastItemIx];
        cells[cellIxs[itemIx]] := itemIx;
      }
      count := count - 1;
    }

    /** One cell of the backward shift: the item at cell j moves to cell i if it depends on it. */
    method ShiftCell(i: nat, ghost j0: nat, j: nat) returns (i': nat)
      requires Separate() && IsPow2(cells.Length) && count <= 0x1_0000_0000
      requires count <= cellIxs.Length && count <= hashes.Length && count <= names.Length
      requires Shifting(cells[..], cellIxs[..count], hashes[..count], names[..count], i, j0)
      requires Steps(i, j0, cells.Length) + 1 < cells.Length
      requires j == Around(j0, 1, cells.Length) && cells[j] != INVALID_IX
      modifies cells, cellIxs
      ensures i' == i || i' == j
      ensures Shifting(cells[..], cellIxs[..count], hashes[..count], names[..count], i', j)
      ensures forall c :: 0 <= c < cells.Length && old(cells[c]) == INVALID_IX && c != i ==> cells[c] == INVALID_IX
    {
      ghost var cs, ixs, hs, ns := cells[..], cellIxs[..count], hashes[..count], names[..count];
      var u := cells[j];
      assert cs[j] == u && j != i;
      var k := And(hashes[u], cells.Length - 1);
      AndMask(hashes[u], cells.Length);
      assert hs[u] == hashes[u];
      if MoveTest(i, j, k) {
        ShiftMove(cs, ixs, hs, ns, i, j0);
        cellIxs[u] := i;
        cells[i] := u;
        assert cells[..] == cs[i := u];
        assert cellIxs[..count] == ixs[u := i];
        i' := j;
      } else {
        ShiftPast(cs, ixs, hs, ns, i, j0);
        i' := i;
      }
    }

    /**
     * The loop of the backward shift, from the removed item's cell on. It ends at an empty cell,
     * at the latest at e, and then nothing depends on the cell it returns.
     */
    method ShiftCells(cell: nat, ghost e: nat) returns (i: nat)
      requires Separate() && IsPow2(cells.Length) && count < cells.Length && count <= 0x1_0000_0000
      requires count <= cellIxs.Length && count <= hashes.Length && count <= names.Length
      requires Shifting(cells[..], cellIxs[..count], hashes[..count], names[..count], cell, cell)
      requires cell < cells.Length && e < cells.Length && cells[e] == INVALID_IX
      modifies cells, cellIxs
      ensures i < cells.Length
      ensures TableOk(cells[..][i := INVALID_IX], cellIxs[..count], hashes[..count], names[..count], -1)
    {
      hide IsPow2, TableOk, PathFull, Shifting, And;
      var capacity := cells.Length;
      ShiftingFull(cells[..], cellIxs[..count], hashes[..count], names[..count], cell, cell);
      var j: nat, x := cell, 0;
      i := cell;
      while x < capacity - 1
        invariant i < capacity && j < capacity
        invariant Shifting(cells[..], cellIxs[..count], hashes[..count], names[..count], i, j)
        invariant x == Steps(cell, j, capacity) < Steps(cell, e, capacity)
        invariant Steps(i, j, capacity) <= x
        invariant cells[e] == INVALID_IX
      {
        ghost var j0 := j;
        ShiftingFull(cells[..], cellIxs[..count], hashes[..count], names[..count], i, j);
        AroundMask(j, 1, capacity);
        j := And(j + 1, capacity - 1);
        if cells[j] == INVALID_IX {
          ShiftDone(cells[..], cellIxs[..count], hashes[..count], names[..count], i, j0);
          return;
        }
        NextStep(cell, i, j0, e, capacity);
        i := ShiftCell(i, j0, j);
        x := x + 1;
      }
    }

    /** The backward shift, and the store that empties the cell it ends with. */
    method ShiftBack(cell: nat, ghost e: nat)
      requires Separate() && IsPow2(cells.Length) && count < cells.Length && count <= 0x1_0000_0000
      requires count <= cellIxs.Length && count <= hashes.Length && count <= names.Length
      requires Shifting(cells[..], cellIxs[..count], hashes[..count], names[..count], cell, cell)
      requires cell < cells.Length && e < cells.Length && cells[e] == INVALID_IX
      modifies cells, cellIxs
      ensures TableOk(cells[..], cellIxs[..count], hashes[..count], names[..count], -1)
    {
      var i := ShiftCells(cell, e);
      ghost var cs := cells[..];
      cells[i] := INVALID_IX;
      assert cells[..] == cs[i := INVALID_IX];
    }
  }

  /** Going one cell further, short of the empty cell e. */
  lemma NextStep(cell: nat, i: nat, j: nat, e: nat, capacity: nat)
    requires cell < capacity && i < capacity && j < capacity && e < capacity
    requires Steps(cell, j, capacity) < Steps(cell, e, capacity) && Around(j, 1, capacity) != e
    requires Steps(i, j, capacity) <= Steps(cell, j, capacity)
    ensures var j' := Around(j, 1, capacity);
            && Steps(cell, j', capacity) == Steps(cell, j, capacity) + 1 < Steps(cell, e, capacity)
            && Steps(i, j', capacity) == Steps(i, j, capacity) + 1
            && Steps(j', j', capacity) == 0 && i != e && j' != e
  {}

  /** The finite map a table stands for. */
  ghost function ToMap<V>(t: Table<V>): (m: map<Key, V>)
    requires |t.names| == |t.values|
    ensures forall k :: k in m <==> k in t.names
  {
    map k | k in t.names :: t.values[Find(t.names, k)]
  }

  /** The same operations on a finite map. */
  ghost function MapStep<V>(m: map<Key, V>, op: Op<V>): (map<Key, V>, Answer<V>) {
    match op
    case Add(key, value) =>
      if key in m then (m, Status(JSONFailure)) else (m[key := value], Status(JSONSuccess))
    case Set(key, value) => (m[key := value], Status(JSONSuccess))
    case Get(key) => (m, Value(if key in m then Some(m[key]) else None))
    case Remove(key) =>
      if key in m then (m - {key}, Status(JSONSuccess)) else (m, Status(JSONFailure))
  }

  lemma NothingSearched(cells: seq<int>, names: seq<Key>, key: Key, home: nat)
    requires home < |cells|
    ensures Searched(cells, names, key, home, 0)
  {}

  lemma HashOfItem(cells: seq<int>, ixs: seq<int>, hashes: seq<nat>, names: seq<Key>, t: nat)
    requires TableOk(cells, ixs, hashes, names, -1) && t < |ixs|
    ensures |hashes| == |names| == |ixs| && hashes[t] == HashString(names[t])
    ensures forall t, u :: 0 <= t < u < |names| ==> names[t] != names[u]
  {}

  /** Where a key is among distinct names, that is where it is found. */
  lemma FindUnique(names: seq<Key>, i: nat)
    requires i < |names| && forall t, u :: 0 <= t < u < |names| ==> names[t] != names[u]
    ensures Find(names, names[i]) == i
  {}

  /** A table is determined, as a map, by its keys and what is found under each. */
  lemma MapOf<V>(t: Table<V>, m: map<Key, V>)
    requires |t.names| == |t.values|
    requires forall k :: k in t.names <==> k in m
    requires forall k :: k in m ==> t.values[Find(t.names, k)] == m[k]
    ensures ToMap(t) == m
  {
    assert ToMap(t).Keys == m.Keys;
  }

  lemma MapAppend<V>(t: Table<V>, key: Key, value: V)
    requires t.Ok() && key !in t.names
    ensures Table(t.names + [key], t.values + [value]).Ok()
    ensures ToMap(Table(t.names + [key], t.values + [value])) == ToMap(t)[key := value]
  {
    var t' := Table(t.names + [key], t.values + [value]);
    var m := ToMap(t)[key := value];
    forall k | k in m
      ensures t'.values[Find(t'.names, k)] == m[k]
    {
      FindUnique(t'.names, if k == key then |t.names| else Find(t.names, k));
    }
    MapOf(t', m);
  }

  lemma MapReplace<V>(t: Table<V>, i: nat, value: V)
    requires t.Ok() && i < |t.names|
    ensures ToMap(t.(values := t.values[i := value])) == ToMap(t)[t.names[i] := value]
  {
    var t' := t.(values := t.values[i := value]);
    forall k | k in t.names
      ensures t'.values[Find(t.names, k)] == ToMap(t)[t.names[i] := value][k]
    {
      FindUnique(t.names, i);
    }
  }

  /** Removing by swapping with the last keeps the keys distinct and drops only the removed one. */
  lemma NamesAfterRemoval(names: seq<Key>, i: nat)
    requires i < |names| && forall t, u :: 0 <= t < u < |names| ==> names[t] != names[u]
    ensures var r := SwapRemoved(names, i);
            && (forall t, u :: 0 <= t < u < |r| ==> r[t] != r[u])
            && names[i] !in r
            && (forall t :: 0 <= t < |r| ==> r[t] == names[if t == i then |names| - 1 else t])
  {}

  lemma FindAfterRemoval(names: seq<Key>, i: nat, key: Key)
    requires i < |names| && forall t, u :: 0 <= t < u < |names| ==> names[t] != names[u]
    ensures key in SwapRemoved(names, i) <==> key in names && key != names[i]
    ensures key in SwapRemoved(names, i) ==>
              Find(names, key) == (var t := Find(SwapRemoved(names, i), key); if t == i then |names| - 1 else t)
  {
    NamesAfterRemoval(names, i);
    var r := SwapRemoved(names, i);
    if key in r {
      var t := Find(r, key);
      FindUnique(names, if t == i then |names| - 1 else t);
    }
    if key in names && key != names[i] {
      var j := Find(names, key);
      assert r[if j == |names| - 1 then i else j] == key;
    }
  }

  lemma SwapRemovedAt<T>(s: seq<T>, i: nat, t: nat)
    requires i < |s| && t < |s| - 1
    ensures SwapRemoved(s, i)[t] == s[if t == i then |s| - 1 else t]
  {}

  lemma SwapRemovedSize<T>(s: seq<T>, i: nat)
    requires i < |s|
    ensures |SwapRemoved(s, i)| == |s| - 1
  {}

  lemma MapRemove<V>(t: Table<V>, i: nat)
    requires t.Ok() && i < |t.names|
    ensures var t' := Table(SwapRemoved(t.names, i), SwapRemoved(t.values, i));
            ToMap(t') == ToMap(t) - {t.names[i]}
  {
    hide Find, SwapRemoved;
    SwapRemovedSize(t.names, i);
    SwapRemovedSize(t.values, i);
    var t' := Table(SwapRemoved(t.names, i), SwapRemoved(t.values, i));
    var m := ToMap(t) - {t.names[i]};
    forall k
      ensures k in t'.names <==> k in m
      ensures k in m ==> t'.values[Find(t'.names, k)] == m[k]
    {
      FindAfterRemoval(t.names, i, k);
      if k in m {
        SwapRemovedAt(t.values, i, Find(t'.names, k));
      }
    }
    MapOf(t', m);
  }

  /** Every operation on the table is the operation on the map. */
  lemma StepRefinesMap<V>(t: Table<V>, op: Op<V>)
    requires t.Ok()
    ensures TableStep(t, op).0.Ok()
    ensures MapStep(ToMap(t), op) == (ToMap(TableStep(t, op).0), TableStep(t, op).1)
  {
    var i := Find(t.names, op.key);
    match op
    case Add(key, value) =>
      if i == |t.names| { MapAppend(t, key, value); }
    case Set(key, value) =>
      if i == |t.names| { MapAppend(t, key, value); } else { MapReplace(t, i, value); }
    case Get(key) =>
    case Remove(key) =>
      if i < |t.names| {
        NamesAfterRemoval(t.names, i);
        MapRemove(t, i);
      }
  }

  /** The table after a run of operations, and the answers they gave. */
  ghost function TableRun<V>(t: Table<V>, ops: seq<Op<V>>): (r: (Table<V>, seq<Answer<V>>))
    requires |t.names| == |t.values|
    ensures |r.0.names| == |r.0.values|
    decreases |ops|
  {
    if ops == [] then (t, [])
    else
      var (t', a) := TableStep(t, ops[0]);
      var (t'', rest) := TableRun(t', ops[1..]);
      (t'', [a] + rest)
  }

  lemma TableRunNext<V>(t: Table<V>, ops: seq<Op<V>>)
    requires |t.names| == |t.values|
    ensures ops == [] ==> TableRun(t, ops) == (t, [])
    ensures ops != [] ==>
              var (t', a) := TableStep(t, ops[0]);
              var (t'', rest) := TableRun(t', ops[1..]);
              TableRun(t, ops) == (t'', [a] + rest)
  {
    hide TableStep;
  }

  ghost function MapRun<V>(m: map<Key, V>, ops: seq<Op<V>>): (map<Key, V>, seq<Answer<V>>)
    decreases |ops|
  {
    if ops == [] then (m, [])
    else
      var (m', a) := MapStep(m, ops[0]);
      var (m'', rest) := MapRun(m', ops[1..]);
      (m'', [a] + rest)
  }

  /** Over any run of operations the object answers like a finite map and ends holding it. */
  lemma {:induction false} RunRefinesMap<V>(t: Table<V>, ops: seq<Op<V>>)
    requires t.Ok()
    ensures TableRun(t, ops).0.Ok()
    ensures MapRun(ToMap(t), ops) == (ToMap(TableRun(t, ops).0), TableRun(t, ops).1)
    decreases |ops|
  {
    if ops != [] {
      StepRefinesMap(t, ops[0]);
      RunRefinesMap(TableStep(t, ops[0]).0, ops[1..]);
    }
  }

  lemma TwoTimes(n: nat)
    requires IsPow2(n)
    ensures IsPow2(2 * n)
  {
    assert 2 * n / 2 == n;
  }

  lemma SixteenTimes(n: nat)
    requires IsPow2(n)
    ensures IsPow2(16 * n)
  {
    hide IsPow2;
    TwoTimes(n);
    TwoTimes(2 * n);
    TwoTimes(4 * n);
    TwoTimes(8 * n);
  }

  lemma HalfTheCells()
    ensures IsPow2(0x4000_0000)
  {
    PowersTo16();
    hide IsPow2;
    SixteenTimes(0x4);
    SixteenTimes(0x40);
    SixteenTimes(0x400);
    SixteenTimes(0x4000);
    SixteenTimes(0x4_0000);
    SixteenTimes(0x40_0000);
    SixteenTimes(0x400_0000);
  }

  /** There is one power of two from one to its double, without the one. */
  lemma {:induction false} NextPow2(n: nat, m: nat)
    requires IsPow2(n) && IsPow2(m) && m < n <= 2 * m
    ensures n == 2 * m
  {
    if m > 1 { NextPow2(n / 2, m / 2); }
  }

  lemma PowersTo16()
    ensures IsPow2(2) && IsPow2(4) && IsPow2(8) && IsPow2(16)
  {
    assert IsPow2(2);
    TwoTimes(2);
    TwoTimes(4);
    TwoTimes(8);
  }

  lemma ItemsGrow(capacity: nat, more: nat)
    requires capacity + 2 <= more
    ensures ItemCapacity(capacity) < ItemCapacity(more)
  {}

  /** A doubled table has room for one more item than the old one. */
  lemma CapacityGrows(capacity: nat)
    requires capacity == 0 || (capacity >= STARTING_CAPACITY && IsPow2(capacity))
    ensures ItemCapacity(capacity) < ItemCapacity(if capacity * 2 > STARTING_CAPACITY then capacity * 2
            else STARTING_CAPACITY)
    ensures capacity > 0 ==> IsPow2(capacity * 2)
    ensures IsPow2(STARTING_CAPACITY)
  {
    hide IsPow2, ItemCapacity;
    PowersTo16();
    ItemsGrow(capacity, if capacity * 2 > STARTING_CAPACITY then capacity * 2 else STARTING_CAPACITY);
    if capacity > 0 { TwoTimes(capacity); }
  }
}
