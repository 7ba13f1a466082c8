/**
 The two index arrays of a JSON object (include/parson.c:122-132): `cells` maps a cell to an item
 or EMPTY, `cellIxs` maps an item to its cell. The lemmas follow one update at a time.
 */
module CellLinks {
  import opened Pigeonhole
  import opened Probing

  /** `cells` and `cellIxs` are inverse to each other on the first `count` items. */
  ghost predicate Inverse(cells: seq<int>, cellIxs: seq<nat>, count: nat) {
    && count <= |cellIxs|
    && (forall c :: 0 <= c < |cells| && cells[c] != EMPTY ==> 0 <= cells[c] < count && cellIxs[cells[c]] == c)
    && (forall i :: 0 <= i < count ==> cellIxs[i] < |cells| && cells[cellIxs[i]] == i)
  }

  /** Each occupied cell shown by the home of its item. */
  ghost function Slots(cells: seq<int>, hashes: seq<nat>): (slots: seq<int>)
    requires IsPow2(|cells|)
    requires forall c :: 0 <= c < |cells| && cells[c] != EMPTY ==> 0 <= cells[c] < |hashes|
    ensures |slots| == |cells| && SlotsOk(slots)
    ensures forall c :: 0 <= c < |cells| ==> (slots[c] >= 0 <==> cells[c] != EMPTY)
    ensures forall c :: 0 <= c < |cells| && cells[c] != EMPTY ==> slots[c] == Mask(hashes[cells[c]], |cells|)
  {
    HomesInRange(hashes, |cells|);
    seq(|cells|, c requires 0 <= c < |cells| => if cells[c] == EMPTY then EMPTY else Mask(hashes[cells[c]], |cells|))
  }

  lemma HomesInRange(hashes: seq<nat>, n: nat)
    requires IsPow2(n)
    ensures forall i :: 0 <= i < |hashes| ==> Mask(hashes[i], n) < n
  {
    forall i | 0 <= i < |hashes| ensures Mask(hashes[i], n) < n {
      MaskRange(hashes[i], n);
    }
  }

  /** Links and chains together: what every table of a JSON object keeps. */
  ghost predicate Linked(cells: seq<int>, cellIxs: seq<nat>, hashes: seq<nat>, count: nat) {
    && IsPow2(|cells|) && count <= |hashes|
    && Inverse(cells, cellIxs, count)
    && Chained(Slots(cells, hashes))
  }

  /** The same while removal runs, with a hole in cell `i` and the scan at cell `j`. */
  ghost predicate LinkedButFor(cells: seq<int>, cellIxs: seq<nat>, hashes: seq<nat>, count: nat, i: nat, j: nat) {
    && IsPow2(|cells|) && count <= |hashes|
    && i < |cells| && j < |cells|
    && Inverse(cells[i := EMPTY], cellIxs, count)
    && ChainedButFor(Slots(cells[i := EMPTY], hashes), i, j)
  }

  /** With more cells than items, some cell is empty. */
  lemma SomeCellEmpty(cells: seq<int>, cellIxs: seq<nat>, count: nat)
    requires Inverse(cells, cellIxs, count) && count < |cells|
    ensures exists e :: 0 <= e < |cells| && cells[e] == EMPTY
  {
    if forall e :: 0 <= e < |cells| ==> cells[e] != EMPTY {
      var f: seq<nat> := cells;
      InjectionFits(f, count);
    }
  }

  /** Writing item `count` into the empty cell where its probe ended. */
  lemma Insert(cells: seq<int>, cellIxs: seq<nat>, hashes: seq<nat>, count: nat, ix: nat, hash: nat)
    requires Linked(cells, cellIxs, hashes, count)
    requires count < |cellIxs| && count < |hashes|
    requires ix < |cells| && cells[ix] == EMPTY
    requires Mask(hash, |cells|) < |cells|
    requires forall p :: 0 <= p < |cells| && Before(|cells|, Mask(hash, |cells|), p, ix) ==> cells[p] != EMPTY
    ensures Linked(cells[ix := count], cellIxs[count := ix], hashes[count := hash], count + 1)
  {
    var cells', cellIxs', hashes' := cells[ix := count], cellIxs[count := ix], hashes[count := hash];
    assert Inverse(cells', cellIxs', count + 1);
    FillEnd(Slots(cells, hashes), Mask(hash, |cells|), ix);
    assert Slots(cells', hashes') == Slots(cells, hashes)[ix := Mask(hash, |cells|)];
  }

  /** Taking item `item` out of cell `cell`, with the last item moved into its place. */
  lemma TakeOut(cells: seq<int>, cellIxs: seq<nat>, hashes: seq<nat>, count: nat, cell: nat)
    requires Linked(cells, cellIxs, hashes, count)
    requires cell < |cells| && cells[cell] != EMPTY
    ensures var item, last := cells[cell], count - 1;
            && (item == last ==> LinkedButFor(cells, cellIxs, hashes, last, cell, cell))
            && (item < last ==> LinkedButFor(cells[cellIxs[last] := item], cellIxs[item := cellIxs[last]],
                                             hashes[item := hashes[last]], last, cell, cell))
  {
    var item, last := cells[cell], count - 1;
    HoleOpens(Slots(cells, hashes), cell);
    if item == last {
      assert Slots(cells[cell := EMPTY], hashes) == Slots(cells, hashes)[cell := EMPTY];
    } else {
      var cells', hashes' := cells[cellIxs[last] := item], hashes[item := hashes[last]];
      var cellIxs' := cellIxs[item := cellIxs[last]];
      assert cells[cellIxs[last]] == last;
      assert Inverse(cells'[cell := EMPTY], cellIxs', last);
      assert Slots(cells'[cell := EMPTY], hashes') == Slots(cells, hashes)[cell := EMPTY];
    }
  }

  /** One turn of the backward shift that leaves cell `Next(j)` where it is. */
  lemma Keep(cells: seq<int>, cellIxs: seq<nat>, hashes: seq<nat>, count: nat, i: nat, j: nat)
    requires LinkedButFor(cells, cellIxs, hashes, count, i, j)
    requires var j' := Next(|cells|, j); j' != i && cells[j'] != EMPTY
    requires var j' := Next(|cells|, j);
             0 <= cells[j'] < |hashes| && !ShouldShift(i, j', Mask(hashes[cells[j']], |cells|))
    ensures LinkedButFor(cells, cellIxs, hashes, count, i, Next(|cells|, j))
  {
    var j' := Next(|cells|, j);
    MaskRange(hashes[cells[j']], |cells|);
    ShiftTestMeaning(|cells|, i, j', Mask(hashes[cells[j']], |cells|));
    HoleStays(Slots(cells[i := EMPTY], hashes), i, j);
  }

  /** One turn of the backward shift that pulls the item of cell `Next(j)` back into the hole. */
  lemma PullBack(cells: seq<int>, cellIxs: seq<nat>, hashes: seq<nat>, count: nat, i: nat, j: nat)
    requires LinkedButFor(cells, cellIxs, hashes, count, i, j)
    requires var j' := Next(|cells|, j); j' != i && cells[j'] != EMPTY
    requires var j' := Next(|cells|, j);
             0 <= cells[j'] < |hashes| && ShouldShift(i, j', Mask(hashes[cells[j']], |cells|))
    ensures var j' := Next(|cells|, j);
            0 <= cells[j'] < |cellIxs| &&
            LinkedButFor(cells[i := cells[j']], cellIxs[cells[j'] := i], hashes, count, j', j')
  {
    var j' := Next(|cells|, j);
    var before := cells[i := EMPTY];
    assert before[j'] == cells[j'];
    MaskRange(hashes[cells[j']], |cells|);
    ShiftTestMeaning(|cells|, i, j', Mask(hashes[cells[j']], |cells|));
    HoleMoves(Slots(before, hashes), i, j);
    MoveLink(before, cellIxs, count, i, j');
    MoveSlot(before, hashes, i, j');
    assert cells[i := cells[j']][j' := EMPTY] == before[i := before[j']][j' := EMPTY];
  }

  lemma MoveLink(cells: seq<int>, cellIxs: seq<nat>, count: nat, i: nat, j: nat)
    requires Inverse(cells, cellIxs, count) && i < |cells| && j < |cells|
    requires cells[i] == EMPTY && cells[j] != EMPTY
    ensures Inverse(cells[i := cells[j]][j := EMPTY], cellIxs[cells[j] := i], count)
  {
  }

  lemma MoveSlot(cells: seq<int>, hashes: seq<nat>, i: nat, j: nat)
    requires IsPow2(|cells|) && i < |cells| && j < |cells|
    requires forall c :: 0 <= c < |cells| && cells[c] != EMPTY ==> 0 <= cells[c] < |hashes|
    requires cells[i] == EMPTY && cells[j] != EMPTY
    ensures var slots := Slots(cells, hashes);
            Slots(cells[i := cells[j]][j := EMPTY], hashes) == slots[i := slots[j]][j := EMPTY]
  {
  }

  /** The scan met an empty cell: with the hole emptied for good, all chains are whole again. */
  lemma Close(cells: seq<int>, cellIxs: seq<nat>, hashes: seq<nat>, count: nat, i: nat, j: nat)
    requires LinkedButFor(cells, cellIxs, hashes, count, i, j)
    requires Next(|cells|, j) != i && cells[Next(|cells|, j)] == EMPTY
    ensures Linked(cells[i := EMPTY], cellIxs, hashes, count)
  {
    HoleCloses(Slots(cells[i := EMPTY], hashes), i, j);
  }

  /** An item whose cell the probe from its home would still have to pass `ix` to reach: then `ix` is occupied. */
  lemma ChainReaches(cells: seq<int>, cellIxs: seq<nat>, hashes: seq<nat>, count: nat, item: nat, ix: nat)
    requires Linked(cells, cellIxs, hashes, count)
    requires item < count && ix < |cells| && cells[ix] == EMPTY
    ensures cellIxs[item] < |cells| && Mask(hashes[item], |cells|) < |cells|
    ensures Before(|cells|, Mask(hashes[item], |cells|), cellIxs[item], ix)
  {
    var c := cellIxs[item];
    MaskRange(hashes[item], |cells|);
    var slots := Slots(cells, hashes);
    assert slots[c] == Mask(hashes[item], |cells|) && slots[ix] < 0;
    SameDist(|cells|, slots[c], c, ix);
  }

  lemma SameDist(n: nat, h: nat, a: nat, b: nat)
    requires h < n && a < n && b < n && a != b
    ensures Before(n, h, a, b) || Before(n, h, b, a)
  {
  }
}
