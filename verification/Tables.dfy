/**
 A snapshot of the five arrays of a JSON object, the invariant every operation keeps, and what
 each operation's writes do to it.
 */
module Tables {
  import opened AssocLists
  import opened Bytes
  import opened CellLinks
  import opened Probing

  const STARTING_CAPACITY: nat := 16

  /** Item slots for a number of cells: the 7/10 load limit. */
  function ItemsFor(cellCapacity: nat): (n: nat)
    ensures cellCapacity > 0 ==> n < cellCapacity
    ensures cellCapacity >= STARTING_CAPACITY ==> n > 0
  {
    cellCapacity * 7 / 10
  }

  datatype Table<V> = Table(
    cells: seq<int>, cellIxs: seq<nat>, hashes: seq<nat>, names: seq<CString>, values: seq<V>, count: nat)

  ghost predicate Sized<V>(t: Table<V>) {
    && |t.hashes| == |t.names| == |t.values| == |t.cellIxs| == ItemsFor(|t.cells|)
    && t.count <= |t.names|
    && (|t.cells| == 0 || |t.cells| >= STARTING_CAPACITY)
  }

  /** The table invariant: links, probe chains, stored hashes, and one item per name. */
  ghost predicate Good<V>(hash: CString -> nat, t: Table<V>) {
    && Sized(t)
    && (|t.cells| > 0 ==> Linked(t.cells, t.cellIxs, t.hashes, t.count))
    && (forall i :: 0 <= i < t.count ==> t.hashes[i] == hash(t.names[i]))
    && DistinctKeys(Items(t))
  }

  /** The members in order, as `json_object_get_name` and `json_object_get_value_at` show them. */
  ghost function Items<V>(t: Table<V>): (ms: seq<Member<V>>)
    requires t.count <= |t.names| && t.count <= |t.values|
    ensures |ms| == t.count
    ensures forall i :: 0 <= i < t.count ==> ms[i] == Member(t.names[i], t.values[i])
  {
    seq(t.count, i requires 0 <= i < t.count && t.count <= |t.names| && t.count <= |t.values| =>
      Member(t.names[i], t.values[i]))
  }

  /** The first `i` cells probed from `home` are occupied, by items with other names. */
  ghost predicate Passed<V>(t: Table<V>, key: CString, home: nat, i: nat)
    requires Sized(t) && home < |t.cells|
  {
    forall p :: 0 <= p < |t.cells| && Dist(|t.cells|, home, p) < i
                ==> t.cells[p] != EMPTY && (0 <= t.cells[p] < t.count ==> t.names[t.cells[p]] != key)
  }

  /** Cell `ix` is empty and ends the probe for a name that is nowhere in the table. */
  ghost predicate ProbeEnd<V>(hash: CString -> nat, t: Table<V>, key: CString, ix: int)
    requires Sized(t)
  {
    && 0 <= ix < |t.cells| && t.cells[ix] == EMPTY
    && var home := Mask(hash(key), |t.cells|);
    && home < |t.cells|
    && Passed(t, key, home, Dist(|t.cells|, home, ix))
  }

  lemma AlwaysAnEmptyCell<V>(hash: CString -> nat, t: Table<V>)
    requires Good(hash, t) && |t.cells| > 0
    ensures exists e :: 0 <= e < |t.cells| && t.cells[e] == EMPTY
  {
    SomeCellEmpty(t.cells, t.cellIxs, t.count);
  }

  lemma CellInRange<V>(hash: CString -> nat, t: Table<V>, ix: nat)
    requires Good(hash, t) && ix < |t.cells| && t.cells[ix] != EMPTY
    ensures 0 <= t.cells[ix] < t.count && t.cellIxs[t.cells[ix]] == ix
  {
  }

  lemma NextPassed<V>(t: Table<V>, key: CString, home: nat, i: nat, ix: nat)
    requires Sized(t) && home < |t.cells| && Passed(t, key, home, i) && i < |t.cells|
    requires ix == if home + i < |t.cells| then home + i else home + i - |t.cells|
    requires 0 <= t.cells[ix] < t.count && t.names[t.cells[ix]] != key
    ensures Passed(t, key, home, i + 1)
  {
  }

  /** A probe that reached an empty cell without meeting the key has shown the key absent. */
  lemma AbsentWhenEmpty<V>(hash: CString -> nat, t: Table<V>, key: CString, ix: nat)
    requires Good(hash, t) && ProbeEnd(hash, t, key, ix)
    ensures !HasKey(Items(t), key)
  {
    var item := Find(Items(t), key);
    if item < t.count {
      ChainReaches(t.cells, t.cellIxs, t.hashes, t.count, item, ix);
    }
  }

  /** A key met while probing is where a linear scan by position finds it. */
  lemma FoundByScan<V>(hash: CString -> nat, t: Table<V>, item: nat)
    requires Good(hash, t) && item < t.count
    ensures Find(Items(t), t.names[item]) == item
  {
    FindAt(Items(t), item);
  }

  ghost function PutAt<V>(t: Table<V>, ix: nat, key: CString, value: V, h: nat): Table<V>
    requires Sized(t) && t.count < |t.names| && ix < |t.cells|
  {
    Table(t.cells[ix := t.count], t.cellIxs[t.count := ix], t.hashes[t.count := h],
          t.names[t.count := key], t.values[t.count := value], t.count + 1)
  }

  lemma PutAtGood<V>(hash: CString -> nat, t: Table<V>, ix: nat, key: CString, value: V)
    requires Good(hash, t) && t.count < |t.names| && ProbeEnd(hash, t, key, ix)
    requires !HasKey(Items(t), key)
    ensures var after := PutAt(t, ix, key, value, hash(key));
            Good(hash, after) && Items(after) == Items(t) + [Member(key, value)]
  {
    var after := PutAt(t, ix, key, value, hash(key));
    Insert(t.cells, t.cellIxs, t.hashes, t.count, ix, hash(key));
    assert Items(after) == Items(t) + [Member(key, value)];
    AbsentAppend(Items(t), key, value);
  }

  lemma AbsentAppend<V>(ms: seq<Member<V>>, key: CString, value: V)
    requires DistinctKeys(ms) && !HasKey(ms, key)
    ensures DistinctKeys(ms + [Member(key, value)])
  {
  }

  /** Overwriting the value of an item touches neither links nor names. */
  lemma OverwriteGood<V>(hash: CString -> nat, t: Table<V>, item: nat, value: V)
    requires Good(hash, t) && item < t.count
    ensures var after := t.(values := t.values[item := value]);
            Good(hash, after) && Items(after) == Items(t)[item := Member(t.names[item], value)]
  {
    var after := t.(values := t.values[item := value]);
    assert Items(after) == Items(t)[item := Member(t.names[item], value)];
  }

  /** The table while a removal is under way: item gone, hole in cell `i`, cells up to `j` scanned. */
  ghost predicate GoodButFor<V>(hash: CString -> nat, t: Table<V>, i: nat, j: nat) {
    && Sized(t)
    && |t.cells| > 0 && LinkedButFor(t.cells, t.cellIxs, t.hashes, t.count, i, j)
    && (forall i :: 0 <= i < t.count ==> t.hashes[i] == hash(t.names[i]))
    && DistinctKeys(Items(t))
  }

  /** The writes that move the last item into the place of the item in cell `cell`. */
  ghost function SwapOut<V>(t: Table<V>, cell: nat): Table<V>
    requires Sized(t) && t.count > 0
    requires cell < |t.cells| && 0 <= t.cells[cell] < t.count
    requires t.cellIxs[t.count - 1] < |t.cells|
  {
    var item, last := t.cells[cell], t.count - 1;
    if item == last then t.(count := last)
    else Table(t.cells[t.cellIxs[last] := item], t.cellIxs[item := t.cellIxs[last]],
               t.hashes[item := t.hashes[last]], t.names[item := t.names[last]],
               t.values[item := t.values[last]], last)
  }

  lemma LastLinked<V>(hash: CString -> nat, t: Table<V>)
    requires Good(hash, t) && |t.cells| > 0 && t.count > 0
    ensures t.cellIxs[t.count - 1] < |t.cells|
  {
  }

  lemma SwapOutGood<V>(hash: CString -> nat, t: Table<V>, cell: nat)
    requires Good(hash, t) && cell < |t.cells| && t.cells[cell] != EMPTY
    ensures 0 <= t.cells[cell] < t.count && t.cellIxs[t.count - 1] < |t.cells|
    ensures var after := SwapOut(t, cell);
            && GoodButFor(hash, after, cell, cell)
            && Items(after) == SwapRemove(Items(t), t.cells[cell])
    ensures var after := SwapOut(t, cell);
            exists e :: 0 <= e < |after.cells| && e != cell && after.cells[e] == EMPTY
  {
    CellInRange(hash, t, cell);
    LastLinked(hash, t);
    var after := SwapOut(t, cell);
    TakeOut(t.cells, t.cellIxs, t.hashes, t.count, cell);
    assert Items(after) == SwapRemove(Items(t), t.cells[cell]);
    SwapKeepsDistinct(Items(t), t.cells[cell]);
    EmptyStays(hash, t, cell);
  }

  lemma SwapKeepsDistinct<V>(ms: seq<Member<V>>, i: nat)
    requires DistinctKeys(ms) && i < |ms|
    ensures DistinctKeys(SwapRemove(ms, i))
  {
  }

  lemma EmptyStays<V>(hash: CString -> nat, t: Table<V>, cell: nat)
    requires Good(hash, t) && cell < |t.cells| && 0 <= t.cells[cell] < t.count && t.cellIxs[t.count - 1] < |t.cells|
    ensures var after := SwapOut(t, cell);
            exists e :: 0 <= e < |after.cells| && e != cell && after.cells[e] == EMPTY
  {
    AlwaysAnEmptyCell(hash, t);
    var e :| 0 <= e < |t.cells| && t.cells[e] == EMPTY;
    assert t.cells[t.cellIxs[t.count - 1]] == t.count - 1;
    assert SwapOut(t, cell).cells[e] == EMPTY;
  }

  lemma HoleInTable<V>(hash: CString -> nat, t: Table<V>, i: nat, j: nat)
    requires GoodButFor(hash, t, i, j)
    ensures IsPow2(|t.cells|)
  {
  }

  lemma ScannedInRange<V>(hash: CString -> nat, t: Table<V>, i: nat, j: nat, c: nat)
    requires GoodButFor(hash, t, i, j) && c < |t.cells| && c != i && t.cells[c] != EMPTY
    ensures 0 <= t.cells[c] < t.count
  {
    assert t.cells[i := EMPTY][c] == t.cells[c];
  }

  lemma KeepGood<V>(hash: CString -> nat, t: Table<V>, i: nat, j: nat)
    requires GoodButFor(hash, t, i, j)
    requires var j' := Next(|t.cells|, j);
             j' != i && 0 <= t.cells[j'] < t.count && !ShouldShift(i, j', Mask(t.hashes[t.cells[j']], |t.cells|))
    ensures GoodButFor(hash, t, i, Next(|t.cells|, j))
  {
    Keep(t.cells, t.cellIxs, t.hashes, t.count, i, j);
  }

  lemma PullBackGood<V>(hash: CString -> nat, t: Table<V>, i: nat, j: nat)
    requires GoodButFor(hash, t, i, j)
    requires var j' := Next(|t.cells|, j);
             j' != i && 0 <= t.cells[j'] < t.count && ShouldShift(i, j', Mask(t.hashes[t.cells[j']], |t.cells|))
    ensures var j' := Next(|t.cells|, j);
            var after := t.(cells := t.cells[i := t.cells[j']], cellIxs := t.cellIxs[t.cells[j'] := i]);
            GoodButFor(hash, after, j', j') && Items(after) == Items(t)
  {
    PullBack(t.cells, t.cellIxs, t.hashes, t.count, i, j);
    var j' := Next(|t.cells|, j);
    var after := t.(cells := t.cells[i := t.cells[j']], cellIxs := t.cellIxs[t.cells[j'] := i]);
    assert Items(after) == Items(t);
  }

  lemma CloseGood<V>(hash: CString -> nat, t: Table<V>, i: nat, j: nat)
    requires GoodButFor(hash, t, i, j)
    requires Next(|t.cells|, j) != i && t.cells[Next(|t.cells|, j)] == EMPTY
    ensures var after := t.(cells := t.cells[i := EMPTY]);
            Good(hash, after) && Items(after) == Items(t)
  {
    Close(t.cells, t.cellIxs, t.hashes, t.count, i, j);
    var after := t.(cells := t.cells[i := EMPTY]);
    assert Items(after) == Items(t);
  }

  lemma AllEmptyGood<V>(hash: CString -> nat, t: Table<V>)
    requires Sized(t) && t.count == 0 && (|t.cells| > 0 ==> IsPow2(|t.cells|))
    requires forall c :: 0 <= c < |t.cells| ==> t.cells[c] == EMPTY
    ensures Good(hash, t) && Items(t) == []
  {
  }
}
