/**
 Cyclic arithmetic over a power-of-two cell array and the probe-chain argument behind
 linear probing with backward-shift deletion (include/parson.c:555-584 and 681-696).
 */
module Probing {

  function Pow2(k: nat): (p: nat)
    ensures p >= 1
  {
    if k == 0 then 1 else 2 * Pow2(k - 1)
  }

  /** Bitwise and of two natural numbers. */
  function And(x: nat, y: nat): nat {
    if x == 0 || y == 0 then 0 else (x % 2) * (y % 2) + 2 * And(x / 2, y / 2)
  }

  ghost predicate IsPow2(n: nat) {
    exists k: nat :: n == Pow2(k)
  }

  /** `x & (n - 1)`, as the table reduces hashes and cell numbers. */
  function Mask(x: nat, n: nat): nat
    requires n > 0
  {
    And(x, n - 1)
  }

  lemma ModHalf(x: nat, p: nat)
    requires p > 0
    ensures x % (2 * p) == x % 2 + 2 * ((x / 2) % p)
  {
    var q, r := x / 2 / p, (x / 2) % p;
    assert x / 2 == q * p + r;
    assert x == 2 * (q * p + r) + x % 2;
    assert x == q * (2 * p) + (2 * r + x % 2);
    DivModUnique(x, 2 * p, q, 2 * r + x % 2);
  }

  lemma DivModUnique(x: nat, n: nat, q: nat, r: nat)
    requires n > 0 && r < n && x == q * n + r
    ensures x % n == r
  {
    var d := x / n - q;
    assert d * n == r - x % n by {
      assert (x / n) * n + x % n == q * n + r;
      assert d * n == (x / n) * n - q * n;
    }
    MulGrows(d, n);
  }

  lemma MulGrows(d: int, n: nat)
    ensures d >= 1 ==> d * n >= n
    ensures d <= -1 ==> -d * n >= n
  {
  }

  /** For a power of two, the mask is the remainder. */
  lemma {:induction false} MaskIsRemainder(x: nat, k: nat)
    ensures Mask(x, Pow2(k)) == x % Pow2(k)
  {
    if k == 0 {
    } else if x == 0 {
      assert 0 % Pow2(k) == 0;
    } else {
      var p := Pow2(k - 1);
      MaskIsRemainder(x / 2, k - 1);
      ModHalf(x, p);
      MaskHalf(x, p);
    }
  }

  lemma MaskHalf(x: nat, p: nat)
    requires x > 0 && p > 0
    ensures Mask(x, 2 * p) == x % 2 + 2 * Mask(x / 2, p)
  {
    assert (2 * p - 1) % 2 == 1 && (2 * p - 1) / 2 == p - 1;
  }

  lemma MaskRange(x: nat, n: nat)
    requires IsPow2(n)
    ensures n > 0 && Mask(x, n) < n
  {
    var k: nat :| n == Pow2(k);
    MaskIsRemainder(x, k);
  }

  /** Masking a sum of two cell numbers wraps around once. */
  lemma MaskWraps(x: nat, n: nat)
    requires IsPow2(n) && x < 2 * n
    ensures n > 0 && Mask(x, n) == if x < n then x else x - n
  {
    var k: nat :| n == Pow2(k);
    MaskIsRemainder(x, k);
    if x < n {
      DivModUnique(x, n, 0, x);
    } else {
      DivModUnique(x, n, 1, x - n);
    }
  }

  /** Steps from cell `a` forward to cell `b`, wrapping around at `n`. */
  function Dist(n: nat, a: nat, b: nat): (d: nat)
    requires a < n && b < n
    ensures d < n
  {
    if a <= b then b - a else b + n - a
  }

  /** The cell after `j`. */
  function Next(n: nat, j: nat): (r: nat)
    requires j < n
    ensures r < n
  {
    if j + 1 < n then j + 1 else 0
  }

  /** Probing from `h` visits cell `p` before it reaches cell `c`. */
  predicate Before(n: nat, h: nat, p: nat, c: nat)
    requires h < n && p < n && c < n
  {
    Dist(n, h, p) < Dist(n, h, c)
  }

  const EMPTY := -1

  /** The cell array seen as homes: `slots[c]` is the home cell of the item in cell `c`, or EMPTY. */
  ghost predicate SlotsOk(slots: seq<int>) {
    forall c :: 0 <= c < |slots| ==> EMPTY <= slots[c] < |slots|
  }

  /** No probe path from an item's home to its cell crosses an empty cell. */
  ghost predicate Chained(slots: seq<int>)
    requires SlotsOk(slots)
  {
    forall c, p :: 0 <= c < |slots| && 0 <= p < |slots| && slots[c] >= 0 && Before(|slots|, slots[c], p, c)
                   ==> slots[p] >= 0
  }

  /** Chains may break only at the hole `i`, and only for cells beyond `j`, counted from the hole. */
  ghost predicate ChainedButFor(slots: seq<int>, i: nat, j: nat)
    requires SlotsOk(slots) && i < |slots| && j < |slots|
  {
    && slots[i] == EMPTY
    && forall c, p :: 0 <= c < |slots| && 0 <= p < |slots| && slots[c] >= 0 && Before(|slots|, slots[c], p, c)
                      ==> slots[p] >= 0 || (p == i && Dist(|slots|, i, j) < Dist(|slots|, i, c))
  }

  /** The source's test for pulling the item of cell `j`, whose home is `k`, back into the hole `i`. */
  predicate ShouldShift(i: nat, j: nat, k: nat) {
    (j > i && (k <= i || k > j)) || (j < i && (k <= i && k > j))
  }

  /** The test asks whether the probe path from `k` to `j` goes through the hole. */
  lemma ShiftTestMeaning(n: nat, i: nat, j: nat, k: nat)
    requires i < n && j < n && k < n && i != j
    ensures ShouldShift(i, j, k) <==> Before(n, k, i, j)
  {
  }

  lemma FillEnd(slots: seq<int>, h: nat, ix: nat)
    requires SlotsOk(slots) && Chained(slots) && h < |slots| && ix < |slots| && slots[ix] == EMPTY
    requires forall p :: 0 <= p < |slots| && Before(|slots|, h, p, ix) ==> slots[p] >= 0
    ensures SlotsOk(slots[ix := h]) && Chained(slots[ix := h])
  {
  }

  lemma HoleOpens(slots: seq<int>, i: nat)
    requires SlotsOk(slots) && Chained(slots) && i < |slots|
    ensures SlotsOk(slots[i := EMPTY]) && ChainedButFor(slots[i := EMPTY], i, i)
  {
  }

  lemma HoleStays(slots: seq<int>, i: nat, j: nat)
    requires SlotsOk(slots) && i < |slots| && j < |slots| && ChainedButFor(slots, i, j)
    requires var j' := Next(|slots|, j); j' != i && slots[j'] >= 0 && !Before(|slots|, slots[j'], i, j')
    ensures ChainedButFor(slots, i, Next(|slots|, j))
  {
  }

  lemma HoleMoves(slots: seq<int>, i: nat, j: nat)
    requires SlotsOk(slots) && i < |slots| && j < |slots| && ChainedButFor(slots, i, j)
    requires var j' := Next(|slots|, j); j' != i && slots[j'] >= 0 && Before(|slots|, slots[j'], i, j')
    ensures var j' := Next(|slots|, j);
            var after := slots[i := slots[j']][j' := EMPTY];
            SlotsOk(after) && ChainedButFor(after, j', j')
  {
    var n, j' := |slots|, Next(|slots|, j);
    var after := slots[i := slots[j']][j' := EMPTY];
    forall c, p | 0 <= c < n && 0 <= p < n && after[c] >= 0 && Before(n, after[c], p, c)
      ensures after[p] >= 0 || (p == j' && Dist(n, j', j') < Dist(n, j', c))
    {
      if c == i {
        assert slots[j'] >= 0 && Before(n, slots[j'], p, j');
      }
    }
  }

  lemma HoleCloses(slots: seq<int>, i: nat, j: nat)
    requires SlotsOk(slots) && i < |slots| && j < |slots| && ChainedButFor(slots, i, j)
    requires Next(|slots|, j) != i && slots[Next(|slots|, j)] == EMPTY
    ensures Chained(slots)
  {
    var n, j' := |slots|, Next(|slots|, j);
    forall c, p | 0 <= c < n && 0 <= p < n && slots[c] >= 0 && Before(n, slots[c], p, c)
      ensures slots[p] >= 0
    {
      if slots[p] < 0 {
        assert p == i;
        assert Before(n, slots[c], j', c);
      }
    }
  }

  /** The backward-shift scan from cell `start`: after `x` steps it is at `j`, has not yet met the empty cell `e`,
      and the hole `i` lies behind it. */
  ghost predicate Scanning(n: nat, start: nat, e: nat, i: nat, j: nat, x: nat)
    requires start < n && e < n && i < n && j < n
  {
    Dist(n, start, i) <= Dist(n, start, j) == x < Dist(n, start, e)
  }

  lemma ScanStart(n: nat, start: nat, e: nat)
    requires start < n && e < n && e != start
    ensures Scanning(n, start, e, start, start, 0)
  {
  }

  /** The loop bound is never what ends the scan. */
  lemma ScanBound(n: nat, start: nat, e: nat)
    requires start < n && e < n
    ensures forall i: nat, j: nat, x: nat :: i < n && j < n && Scanning(n, start, e, i, j, x) ==> x < n - 1
  {
  }

  lemma ScanStep(n: nat, start: nat, e: nat, i: nat, j: nat, x: nat)
    requires start < n && e < n && i < n && j < n && Scanning(n, start, e, i, j, x)
    ensures x < n - 1
    ensures var j' := if j + 1 < n then j + 1 else j + 1 - n;
            && j' == Next(n, j) && j' != i
            && (j' == e || (Scanning(n, start, e, i, j', x + 1) && Scanning(n, start, e, j', j', x + 1)))
  {
  }

  /** The same, with the next cell computed as the source does. */
  lemma ScanMasked(n: nat, start: nat, e: nat, i: nat, j: nat, x: nat, next: nat)
    requires IsPow2(n) && start < n && e < n && i < n && j < n && Scanning(n, start, e, i, j, x)
    requires next == Mask(j + 1, n)
    ensures next < n && next == Next(n, j) && next != i
    ensures next != e ==> Scanning(n, start, e, i, next, x + 1) && Scanning(n, start, e, next, next, x + 1)
  {
    MaskWraps(j + 1, n);
    ScanStep(n, start, e, i, j, x);
  }
}
