/** The object hash table of include/parson.c: five parallel arrays updated in place. */
module JsonObjects {
  import opened AssocLists
  import opened Bytes
  import opened Options
  import opened Probing
  import opened Tables

  class JsonObject<V(0)> {
    ghost var Repr: set<object>
    const hash: CString -> nat
    var cells: array<int>
    var hashes: array<nat>
    var names: array<CString>
    var values: array<V>
    var cellIxs: array<nat>
    var count: nat
    var itemCapacity: nat
    var cellCapacity: nat

    /** The five buffers are separate allocations. */
    ghost predicate Apart()
      reads this
    {
      var c: object, h: object, n: object, v: object, x: object := cells, hashes, names, values, cellIxs;
      c != h && c != n && c != v && c != x && h != n && h != v && h != x && n != v && n != x && v != x
    }

    ghost predicate Shape()
      reads this
    {
      && Repr == {this, cells, hashes, names, values, cellIxs}
      && cells.Length == cellCapacity
      && hashes.Length == names.Length == values.Length == cellIxs.Length == itemCapacity == ItemsFor(cellCapacity)
      && Apart() && count <= itemCapacity
      && (cellCapacity == 0 || cellCapacity >= STARTING_CAPACITY)
    }

    ghost function Snapshot(): Table<V>
      reads this, cells, cellIxs, hashes, names, values
    {
      Table(cells[..], cellIxs[..], hashes[..], names[..], values[..], count)
    }

    ghost predicate Valid()
      reads this, Repr
    {
      Shape() && Good(hash, Snapshot())
    }

    /** The members in order. */
    ghost function Members(): (ms: seq<Member<V>>)
      reads this, Repr
      requires Shape()
      ensures |ms| == count
      ensures forall i :: 0 <= i < count ==> ms[i] == Member(names[i], values[i])
    {
      Items(Snapshot())
    }

    constructor (hash: CString -> nat, cellCapacity: nat)
      requires cellCapacity == 0 || (cellCapacity >= STARTING_CAPACITY && IsPow2(cellCapacity))
      ensures Valid() && fresh(Repr)
      ensures this.hash == hash && this.cellCapacity == cellCapacity && Members() == []
    {
      this.hash := hash;
      this.cellCapacity := cellCapacity;
      itemCapacity := ItemsFor(cellCapacity);
      cells := new int[cellCapacity](_ => EMPTY);
      hashes := new nat[ItemsFor(cellCapacity)];
      names := new CString[ItemsFor(cellCapacity)];
      values := new V[ItemsFor(cellCapacity)];
      cellIxs := new nat[ItemsFor(cellCapacity)];
      count := 0;
      Repr := {this, cells, hashes, names, values, cellIxs};
    }

    /** Linear probing from the key's home: the key's cell, or the empty cell where it would go. */
    method GetCellIx(key: CString, h: nat) returns (ix: int, found: bool)
      requires Valid() && h == hash(key)
      ensures found <==> HasKey(Members(), key)
      ensures found ==> 0 <= ix < cellCapacity && cells[ix] == Find(Members(), key)
      ensures !found && cellCapacity > 0 ==> ProbeEnd(hash, Snapshot(), key, ix)
      ensures ix == EMPTY <==> cellCapacity == 0
    {
      ghost var t := Snapshot();
      var home := if cellCapacity == 0 then h else Mask(h, cellCapacity);
      if cellCapacity > 0 {
        MaskRange(h, cellCapacity);
      }
      var i := 0;
      while i < cellCapacity
        invariant i <= cellCapacity
        invariant cellCapacity > 0 ==> home < cellCapacity && Passed(t, key, home, i)
      {
        MaskWraps(home + i, cellCapacity);
        ix := Mask(home + i, cellCapacity);
        var cell := cells[ix];
        if cell == EMPTY {
          AbsentWhenEmpty(hash, t, key, ix);
          return ix, false;
        }
        CellInRange(hash, t, ix);
        var hashToCheck := hashes[cell];
        if h == hashToCheck {
          var keyToCheck := names[cell];
          if keyToCheck == key {
            FoundByScan(hash, t, cell);
            return ix, true;
          }
        }
        NextPassed(t, key, home, i, ix);
        i := i + 1;
      }
      if cellCapacity > 0 {
        AlwaysAnEmptyCell(hash, t);
      }
      return EMPTY, false;
    }

    /** Writes a new last item into the empty cell where its probe ended. */
    method PutLast(ix: nat, key: CString, value: V)
      requires Valid() && count < itemCapacity
      requires !HasKey(Members(), key) && ProbeEnd(hash, Snapshot(), key, ix)
      modifies cells, hashes, names, values, cellIxs, `count
      ensures Valid()
      ensures Members() == old(Members()) + [Member(key, value)]
    {
      PutAtGood(hash, Snapshot(), ix, key, value);
      names[count] := key;
      cells[ix] := count;
      values[count] := value;
      cellIxs[count] := ix;
      hashes[count] := hash(key);
      count := count + 1;
      ghost var t := old(Snapshot());
      assert cells[..] == t.cells[ix := t.count];
      assert cellIxs[..] == t.cellIxs[t.count := ix];
      assert hashes[..] == t.hashes[t.count := hash(key)];
      assert names[..] == t.names[t.count := key];
      assert values[..] == t.values[t.count := value];
      assert Snapshot() == PutAt(t, ix, key, value, hash(key));
    }

    /** Puts a new member behind the others, in a table that grows first if it is full. */
    method AddLast(key: CString, value: V, h: nat, ix: int)
      requires Valid() && h == hash(key) && !HasKey(Members(), key)
      requires cellCapacity > 0 ==> ProbeEnd(hash, Snapshot(), key, ix)
      modifies Repr
      ensures Valid() && fresh(Repr - old(Repr)) && Members() == old(Members()) + [Member(key, value)]
      ensures old(count < itemCapacity) ==> Repr == old(Repr) && cellCapacity == old(cellCapacity)
      decreases if count < itemCapacity then 1 else 5, 0
    {
      var freeIx := MakeRoom(key, h, ix);
      PutLast(freeIx, key, value);
    }

    /** Adds a new member; a name already present is refused. */
    method Add(key: CString, value: V) returns (ok: bool)
      requires Valid()
      modifies Repr
      ensures Valid() && fresh(Repr - old(Repr))
      ensures (Members(), Status(ok)) == Step(old(Members()), Op.Add(key, value))
      ensures old(count < itemCapacity) ==> Repr == old(Repr) && cellCapacity == old(cellCapacity)
      decreases if count < itemCapacity then 1 else 5, 1
    {
      var h := hash(key);
      var cellIx, found := GetCellIx(key, h);
      if found {
        return false;
      }
      AddLast(key, value, h, cellIx);
      return true;
    }

    /** Replaces the value of a name that is present, or adds a new member. */
    method SetValue(key: CString, value: V) returns (ok: bool)
      requires Valid()
      modifies Repr
      ensures Valid() && fresh(Repr - old(Repr))
      ensures (Members(), Status(ok)) == Step(old(Members()), Op.SetValue(key, value))
    {
      var h := hash(key);
      var cellIx, found := GetCellIx(key, h);
      if found {
        Overwrite(cells[cellIx], key, value);
        return true;
      }
      AddLast(key, value, h, cellIx);
      return true;
    }

    method Overwrite(itemIx: nat, ghost key: CString, value: V)
      requires Valid() && itemIx < count && names[itemIx] == key
      modifies values
      ensures Valid() && Members() == old(Members())[itemIx := Member(key, value)]
    {
      ghost var t := Snapshot();
      OverwriteGood(hash, t, itemIx, value);
      values[itemIx] := value;
      assert values[..] == t.values[itemIx := value];
      assert Snapshot() == t.(values := t.values[itemIx := value]);
    }

    /** Grows a full table, and then probes again for the place of the new name. */
    method MakeRoom(key: CString, h: nat, ix: int) returns (cellIx: nat)
      requires Valid() && h == hash(key) && !HasKey(Members(), key)
      requires cellCapacity > 0 ==> ProbeEnd(hash, Snapshot(), key, ix)
      modifies this
      ensures Valid() && fresh(Repr - old(Repr))
      ensures Members() == old(Members()) && count < itemCapacity
      ensures ProbeEnd(hash, Snapshot(), key, cellIx)
      ensures old(count < itemCapacity) ==> Repr == old(Repr) && cellCapacity == old(cellCapacity)
      decreases if count < itemCapacity then 0 else 4
    {
      if count < itemCapacity {
        return ix;
      }
      GrowAndRehash();
      var newIx, found := GetCellIx(key, h);
      return newIx;
    }

    /** Moves every member into a table with twice the cells, which then has room for one more. */
    method GrowAndRehash()
      requires Valid() && count >= itemCapacity
      modifies this
      ensures Valid() && fresh(Repr - {this})
      ensures Members() == old(Members()) && count < itemCapacity
      ensures cellCapacity == if old(cellCapacity) == 0 then 16 else 2 * old(cellCapacity)
      ensures itemCapacity == cellCapacity * 7 / 10
      decreases 3
    {
      RoomAfterGrowth(cellCapacity, Snapshot());
      var newObject := new JsonObject(hash, GrownCapacity(cellCapacity));
      CopyInto(newObject);
      TakeOver(newObject);
    }

    /** `*object = new_object` */
    method TakeOver(newObject: JsonObject<V>)
      requires newObject.Valid() && newObject.hash == hash && this !in newObject.Repr
      modifies this
      ensures Valid() && Repr == newObject.Repr - {newObject} + {this}
      ensures Members() == newObject.Members()
      ensures cellCapacity == newObject.cellCapacity && itemCapacity == newObject.itemCapacity
    {
      cells, hashes, names := newObject.cells, newObject.hashes, newObject.names;
      values, cellIxs, count := newObject.values, newObject.cellIxs, newObject.count;
      itemCapacity, cellCapacity := newObject.itemCapacity, newObject.cellCapacity;
      Repr := newObject.Repr - {newObject} + {this};
      assert Snapshot() == newObject.Snapshot();
    }

    /** The copying loop of rehashing: each member is added to the empty table `newObject`. */
    method CopyInto(newObject: JsonObject<V>)
      requires Valid() && newObject.Valid() && Repr !! newObject.Repr
      requires newObject.Members() == [] && count <= newObject.itemCapacity
      modifies newObject.Repr
      ensures newObject.Valid() && newObject.Repr == old(newObject.Repr)
      ensures newObject.cellCapacity == old(newObject.cellCapacity)
      ensures newObject.Members() == Members()
      decreases 2
    {
      ghost var ms := Members();
      NamesDiffer(hash, Snapshot());
      var i := 0;
      while i < count
        invariant i <= count
        invariant newObject.Valid() && newObject.Repr == old(newObject.Repr)
        invariant newObject.cellCapacity == old(newObject.cellCapacity)
        invariant newObject.Members() == ms[..i]
      {
        AbsentBefore(ms, i);
        var ok := newObject.Add(names[i], values[i]);
        i := i + 1;
      }
    }

    /** Removes a member: the last member takes its place, and the cells after its cell close the gap. */
    method Remove(key: CString) returns (ok: bool)
      requires Valid()
      modifies Repr
      ensures Valid() && Repr == old(Repr)
      ensures (Members(), Status(ok)) == Step(old(Members()), Op.Remove(key))
    {
      var h := hash(key);
      var cell, found := GetCellIx(key, h);
      if !found {
        return false;
      }
      RemoveAt(cell);
      return true;
    }

    method RemoveAt(cell: nat)
      requires Valid() && cell < cellCapacity && 0 <= cells[cell] < count
      modifies cells, hashes, names, values, cellIxs, `count
      ensures Valid() && Members() == SwapRemove(old(Members()), old(cells[cell]))
    {
      ghost var t := Snapshot();
      SwapOutGood(hash, t, cell);
      TakeItem(cell);
      ghost var e :| 0 <= e < cellCapacity && e != cell && cells[e] == EMPTY;
      ShiftBack(cell, e);
    }

    method TakeItem(cell: nat)
      requires Shape() && count > 0 && cell < cellCapacity && 0 <= cells[cell] < count
      requires cellIxs[count - 1] < cellCapacity
      modifies cells, hashes, names, values, cellIxs, `count
      ensures Shape() && Snapshot() == SwapOut(old(Snapshot()), cell)
    {
      ghost var t := Snapshot();
      var itemIx, lastItemIx := cells[cell], count - 1;
      if itemIx < lastItemIx {
        names[itemIx] := names[lastItemIx];
        values[itemIx] := values[lastItemIx];
        cellIxs[itemIx] := cellIxs[lastItemIx];
        hashes[itemIx] := hashes[lastItemIx];
        cells[cellIxs[itemIx]] := itemIx;
      }
      count := count - 1;
      assert Snapshot() == SwapOut(t, cell);
    }

    /** Backward shift: pulls later items of broken chains into the hole until an empty cell is met. */
    method ShiftBack(cell: nat, ghost e: nat)
      requires Shape() && cell < cellCapacity && GoodButFor(hash, Snapshot(), cell, cell)
      requires e < cellCapacity && e != cell && cells[e] == EMPTY
      modifies cells, cellIxs
      ensures Valid() && Members() == old(Members())
    {
      HoleInTable(hash, Snapshot(), cell, cell);
      var n := cellCapacity;
      var i: nat, j: nat, x: nat := cell, cell, 0;
      ghost var j0: nat := cell;
      ScanStart(n, cell, e);
      ScanBound(n, cell, e);
      while x < n - 1
        invariant i < n && j < n && Scanning(n, cell, e, i, j, x)
        invariant cells[e] == EMPTY
        invariant GoodButFor(hash, Snapshot(), i, j) && Members() == old(Members())
      {
        j0 := j;
        j := Mask(j + 1, n);
        ScanMasked(n, cell, e, i, j0, x, j);
        if cells[j] == EMPTY {
          break;
        }
        i := ShiftOne(i, j, j0);
        x := x + 1;
      }
      CloseHole(i, j0);
    }

    method CloseHole(i: nat, ghost j: nat)
      requires Shape() && i < cellCapacity && j < cellCapacity && GoodButFor(hash, Snapshot(), i, j)
      requires Next(cellCapacity, j) != i && cells[Next(cellCapacity, j)] == EMPTY
      modifies cells
      ensures Valid() && Members() == old(Members())
    {
      ghost var t := Snapshot();
      CloseGood(hash, t, i, j);
      cells[i] := EMPTY;
      assert cells[..] == t.cells[i := EMPTY];
    }

    /** One turn of the shift: the item of cell `j` goes into the hole `i` if its probe path crosses the hole. */
    method ShiftOne(i: nat, j: nat, ghost j0: nat) returns (hole: nat)
      requires Shape() && i < cellCapacity && j0 < cellCapacity && GoodButFor(hash, Snapshot(), i, j0)
      requires j == Next(cellCapacity, j0) && j != i && cells[j] != EMPTY
      modifies cells, cellIxs
      ensures Shape() && (hole == i || hole == j)
      ensures GoodButFor(hash, Snapshot(), hole, j) && Members() == old(Members())
      ensures forall c :: 0 <= c < cellCapacity && c != i ==> cells[c] == old(cells[c])
    {
      ghost var t := Snapshot();
      HoleInTable(hash, t, i, j0);
      ScannedInRange(hash, t, i, j0, j);
      MaskRange(hashes[cells[j]], cellCapacity);
      var k := Mask(hashes[cells[j]], cellCapacity);
      if (j > i && (k <= i || k > j)) || (j < i && (k <= i && k > j)) {
        PullBackGood(hash, t, i, j0);
        cellIxs[cells[j]] := i;
        cells[i] := cells[j];
        assert cells[..] == t.cells[i := t.cells[j]];
        assert cellIxs[..] == t.cellIxs[t.cells[j] := i];
        hole := j;
      } else {
        KeepGood(hash, t, i, j0);
        hole := i;
      }
    }

    /** Drops all members and keeps the capacity. */
    method Clear() returns (ok: bool)
      requires Valid()
      modifies cells, `count
      ensures Valid() && Repr == old(Repr)
      ensures (Members(), Status(ok)) == Step(old(Members()), Op.Clear)
    {
      count := 0;
      var i := 0;
      while i < cellCapacity
        invariant i <= cellCapacity && count == 0
        invariant forall c :: 0 <= c < i ==> cells[c] == EMPTY
      {
        cells[i] := EMPTY;
        i := i + 1;
      }
      AllEmptyGood(hash, Snapshot());
      return true;
    }

    /** The value stored under a name, found by probing. */
    method GetValue(key: CString) returns (value: Option<V>)
      requires Valid()
      ensures (Members(), Value(value)) == Step(Members(), Op.Get(key))
    {
      var cellIx, found := GetCellIx(key, hash(key));
      if !found {
        return None;
      }
      var itemIx := cells[cellIx];
      return Some(values[itemIx]);
    }

    method GetName(index: nat) returns (name: Option<CString>)
      requires Valid()
      ensures name == if index < |Members()| then Some(Members()[index].key) else None
    {
      return if index >= count then None else Some(names[index]);
    }

    method GetValueAt(index: nat) returns (value: Option<V>)
      requires Valid()
      ensures value == if index < |Members()| then Some(Members()[index].value) else None
    {
      return if index >= count then None else Some(values[index]);
    }
  }

  lemma NamesDiffer<V>(hash: CString -> nat, t: Table<V>)
    requires Good(hash, t)
    ensures DistinctKeys(Items(t))
  {
  }

  /** `MAX(cell_capacity * 2, STARTING_CAPACITY)` */
  function GrownCapacity(cellCapacity: nat): nat {
    if cellCapacity * 2 > STARTING_CAPACITY then cellCapacity * 2 else STARTING_CAPACITY
  }

  lemma RoomAfterGrowth<V>(cellCapacity: nat, t: Table<V>)
    requires |t.cells| == cellCapacity && Sized(t)
    requires cellCapacity > 0 ==> IsPow2(cellCapacity)
    ensures IsPow2(GrownCapacity(cellCapacity))
    ensures t.count < ItemsFor(GrownCapacity(cellCapacity))
  {
    assert Pow2(4) == 2 * Pow2(3) == 4 * Pow2(2) == 8 * Pow2(1) == 16;
    if cellCapacity == 0 {
      assert Pow2(4) == 2 * Pow2(3) == 4 * Pow2(2) == 8 * Pow2(1) == 16;
    } else {
      var k: nat :| cellCapacity == Pow2(k);
      assert 2 * cellCapacity == Pow2(k + 1);
    }
  }

  lemma AbsentBefore<V>(ms: seq<Member<V>>, i: nat)
    requires i < |ms| && DistinctKeys(ms)
    ensures !HasKey(ms[..i], ms[i].key)
    ensures ms[..i] + [ms[i]] == ms[..i + 1]
  {
  }
}
