/**
 How far equality carries over. Numbers are compared with a tolerance, so equality is not transitive;
 this says exactly for which trees it is.
 */
module EqualityRange {
  import opened AssocLists
  import opened Bytes
  import opened JsonEquality
  import opened JsonTrees

  /** Two steps of equality make one with the sum of the tolerances. */
  lemma {:induction false} Chain(r: real, s: real, a: Json, b: Json, c: Json)
    requires EqualsWithin(r, a, b) && EqualsWithin(s, b, c)
    ensures EqualsWithin(r + s, a, c)
    decreases a
  {
    match a
    case Array(x) =>
      forall i | 0 <= i < |x| ensures EqualsWithin(r + s, x[i], c.items[i]) {
        Chain(r, s, x[i], b.items[i], c.items[i]);
      }
    case Object(x) =>
      var y, z := b.members, c.members;
      forall i | 0 <= i < |x| ensures HasKey(z, x[i].key) && SameAt(r + s, x, z, i) {
        assert SameAt(r, x, y, i);
        var j := Find(y, x[i].key);
        assert HasKey(z, y[j].key) && SameAt(s, y, z, j);
        Chain(r, s, x[Find(x, x[i].key)].value, y[j].value, z[Find(z, x[i].key)].value);
      }
    case _ =>
  }

  /** A tree half way between two trees of the same shape: each number is the mean of the two. */
  ghost function Middle(a: Json, c: Json): Json
    decreases a, 0
  {
    match a
    case Number(x) => if c.Number? then Number((x + c.x) / 2.0) else a
    case Array(x) =>
      if c.Array? && |x| == |c.items| then
        Array(seq(|x|, i requires 0 <= i < |x| && |x| == |c.items| => Middle(x[i], c.items[i])))
      else a
    case Object(x) =>
      if c.Object? then
        Object(seq(|x|, i requires 0 <= i < |x| => Member(x[i].key, MiddleValue(x[i].value, x[i].key, c.members))))
      else a
    case _ => a
  }

  ghost function MiddleValue(v: Json, key: CString, z: seq<Member<Json>>): Json
    decreases v, 1
  {
    if HasKey(z, key) then Middle(v, z[Find(z, key)].value) else v
  }

  /** Trees that are equal within twice a tolerance have a valid tree between them that is equal to both within it. */
  lemma {:induction false} MiddleEqualsBoth(tolerance: real, a: Json, c: Json)
    requires Valid(a) && Valid(c) && EqualsWithin(2.0 * tolerance, a, c)
    ensures Valid(Middle(a, c))
    ensures EqualsWithin(tolerance, a, Middle(a, c)) && EqualsWithin(tolerance, Middle(a, c), c)
    decreases a
  {
    match a
    case Array(x) =>
      var z, m := c.items, Middle(a, c).items;
      forall i | 0 <= i < |x|
        ensures Valid(m[i]) && EqualsWithin(tolerance, x[i], m[i]) && EqualsWithin(tolerance, m[i], z[i])
      {
        MiddleEqualsBoth(tolerance, x[i], z[i]);
      }
    case Object(x) =>
      var z, m := c.members, Middle(a, c).members;
      assert DistinctKeys(m);
      forall i | 0 <= i < |x|
        ensures Valid(m[i].value) && HasKey(m, x[i].key) && HasKey(z, m[i].key)
        ensures SameAt(tolerance, x, m, i) && SameAt(tolerance, m, z, i)
      {
        FindAt(x, i);
        FindAt(m, i);
        assert SameAt(2.0 * tolerance, x, z, i);
        MiddleEqualsBoth(tolerance, x[i].value, z[Find(z, x[i].key)].value);
      }
    case _ =>
  }

  /** A valid tree in the middle that is equal to both. */
  ghost predicate Joins(a: Json, b: Json, c: Json) {
    Valid(b) && Equals(a, b) && Equals(b, c)
  }

  /** Two valid trees are joined by some valid tree in the middle if and only if they are equal with twice the
      tolerance. */
  lemma JoinedExactly(a: Json, c: Json)
    requires Valid(a) && Valid(c)
    ensures (exists b :: Joins(a, b, c)) <==> EqualsWithin(2.0 * EPSILON, a, c)
  {
    if b :| Joins(a, b, c) {
      Chain(EPSILON, EPSILON, a, b, c);
    }
    if EqualsWithin(2.0 * EPSILON, a, c) {
      MiddleJoins(a, c);
    }
  }

  lemma MiddleJoins(a: Json, c: Json)
    requires Valid(a) && Valid(c) && EqualsWithin(2.0 * EPSILON, a, c)
    ensures Joins(a, Middle(a, c), c)
  {
    MiddleEqualsBoth(EPSILON, a, c);
  }

  /** Equality carries over from `a` to `c` through every valid tree in the middle if and only if they are equal
      themselves, or not even equal with twice the tolerance. */
  lemma TransitiveExactly(a: Json, c: Json)
    requires Valid(a) && Valid(c)
    ensures (forall b :: Joins(a, b, c) ==> Equals(a, c)) <==> (Equals(a, c) || !EqualsWithin(2.0 * EPSILON, a, c))
  {
    JoinedExactly(a, c);
  }

  /** Three numbers for which it does not carry over. */
  lemma EqualsNotTransitive()
    ensures exists a: Json, b: Json, c: Json :: Equals(a, b) && Equals(b, c) && !Equals(a, c)
  {
    var a, b, c := Number(0.0), Number(0.0000009), Number(0.0000018);
    assert Equals(a, b) && Equals(b, c) && !Equals(a, c);
  }

  lemma IntegersSharp(r: real, s: real, x: real, y: real)
    requires IsInteger(x) && IsInteger(y) && r <= 1.0 && s > 0.0 && Near(r, x, y)
    ensures Near(s, x, y)
  {
    var m, n := x.Floor, y.Floor;
    assert (m - n) as real == x - y;
    assert -1 < m - n < 1;
  }

  /** Integers that are less than one apart are the same, so no positive tolerance matters to them. */
  lemma {:induction false} IntegralSharp(r: real, s: real, a: Json, b: Json)
    requires Integral(a) && Integral(b) && r <= 1.0 && s > 0.0 && EqualsWithin(r, a, b)
    ensures EqualsWithin(s, a, b)
    decreases a
  {
    match a
    case Number(x) =>
      IntegersSharp(r, s, x, b.x);
    case Array(x) =>
      forall i | 0 <= i < |x| ensures EqualsWithin(s, x[i], b.items[i]) {
        IntegralSharp(r, s, x[i], b.items[i]);
      }
    case Object(x) =>
      var y := b.members;
      forall i | 0 <= i < |x| ensures HasKey(y, x[i].key) && SameAt(s, x, y, i) {
        assert SameAt(r, x, y, i);
        IntegralSharp(r, s, x[Find(x, x[i].key)].value, y[Find(y, x[i].key)].value);
      }
    case _ =>
  }

  /** On valid trees with integer numbers equality is an equivalence; only the outer trees need integers for it to
      carry over. */
  lemma IntegralEquivalence(a: Json, b: Json, c: Json)
    requires Valid(a) && Valid(b) && Valid(c) && Integral(a) && Integral(c)
    ensures Equals(a, a) && (Equals(a, b) <==> Equals(b, a))
    ensures Equals(a, b) && Equals(b, c) ==> Equals(a, c)
  {
    EqualsReflexive(EPSILON, a);
    EqualsSymmetric(EPSILON, a, b);
    if Equals(a, b) && Equals(b, c) {
      Chain(EPSILON, EPSILON, a, b, c);
      IntegralSharp(2.0 * EPSILON, EPSILON, a, c);
    }
  }
}
