/** `json_value_equals` and `json_value_deep_copy` of include/parson.c:2370-2433 and 1709-1797. */
module JsonEquality {
  import opened AssocLists
  import opened Bytes
  import opened JsonObjects
  import JsonParser
  import opened JsonTrees
  import Pigeonhole

  const EPSILON: real := 0.000001

  predicate Near(tolerance: real, x: real, y: real) {
    -tolerance < x - y < tolerance
  }

  /** `json_value_equals` */
  predicate Equals(a: Json, b: Json) {
    EqualsWithin(EPSILON, a, b)
  }

  /** The same comparison with any tolerance on numbers. */
  predicate EqualsWithin(tolerance: real, a: Json, b: Json)
    decreases a, 0
  {
    match a
    case Array(x) => b.Array? && |x| == |b.items| && ItemsEqual(tolerance, x, b.items)
    case Object(x) => b.Object? && |x| == |b.members| && MembersEqual(tolerance, x, b.members)
    case Str(s) => b.Str? && s == b.chars
    case Boolean(p) => b.Boolean? && p == b.b
    case Number(x) => b.Number? && Near(tolerance, x, b.x)
    case Null => b.Null?
  }

  predicate ItemsEqual(tolerance: real, x: seq<Json>, y: seq<Json>)
    requires |x| == |y|
    decreases x, 1
  {
    forall i :: 0 <= i < |x| ==> EqualsWithin(tolerance, x[i], y[i])
  }

  /** The names of the members of `x`, looked up in both objects. */
  predicate MembersEqual(tolerance: real, x: seq<Member<Json>>, y: seq<Member<Json>>)
    decreases x, 1
  {
    forall i :: 0 <= i < |x| ==> HasKey(y, x[i].key) && SameAt(tolerance, x, y, i)
  }

  /** The two values found under the name of member `i` of `x` are equal. */
  predicate SameAt(tolerance: real, x: seq<Member<Json>>, y: seq<Member<Json>>, i: nat)
    requires i < |x| && HasKey(y, x[i].key)
    decreases x, 0
  {
    EqualsWithin(tolerance, x[Find(x, x[i].key)].value, y[Find(y, x[i].key)].value)
  }

  /** Every valid tree equals itself. */
  lemma {:induction false} EqualsReflexive(tolerance: real, v: Json)
    requires Valid(v) && tolerance > 0.0
    ensures EqualsWithin(tolerance, v, v)
    decreases v
  {
    match v
    case Array(items) =>
      forall i | 0 <= i < |items| ensures EqualsWithin(tolerance, items[i], items[i]) {
        EqualsReflexive(tolerance, items[i]);
      }
    case Object(ms) =>
      forall i | 0 <= i < |ms| ensures HasKey(ms, ms[i].key) && SameAt(tolerance, ms, ms, i) {
        FindAt(ms, i);
        EqualsReflexive(tolerance, ms[i].value);
      }
    case _ =>
  }

  /** Equal counts and distinct names: if every name of `x` is in `y`, then every name of `y` is in `x`. */
  lemma NamesBothWays(x: seq<Member<Json>>, y: seq<Member<Json>>, j: nat) returns (i: nat)
    requires DistinctKeys(x) && DistinctKeys(y) && |x| == |y| && j < |y|
    requires forall i :: 0 <= i < |x| ==> HasKey(y, x[i].key)
    ensures i < |x| && x[i].key == y[j].key && Find(x, y[j].key) == i && Find(y, y[j].key) == j
  {
    var f := seq(|x|, i requires 0 <= i < |x| => Find(y, x[i].key));
    Pigeonhole.InjectionHits(f, j);
    i :| 0 <= i < |f| && f[i] == j;
    FindAt(x, i);
    FindAt(y, j);
  }

  /** The check looks for the names of one side only, and yet it is symmetric. */
  lemma EqualsSymmetric(tolerance: real, a: Json, b: Json)
    requires Valid(a) && Valid(b)
    ensures EqualsWithin(tolerance, a, b) == EqualsWithin(tolerance, b, a)
  {
    if EqualsWithin(tolerance, a, b) {
      EqualsOneWay(tolerance, a, b);
    }
    if EqualsWithin(tolerance, b, a) {
      EqualsOneWay(tolerance, b, a);
    }
  }

  lemma {:induction false} EqualsOneWay(tolerance: real, a: Json, b: Json)
    requires Valid(a) && Valid(b) && EqualsWithin(tolerance, a, b)
    ensures EqualsWithin(tolerance, b, a)
    decreases a
  {
    match a
    case Array(x) =>
      forall i | 0 <= i < |x| ensures EqualsWithin(tolerance, b.items[i], x[i]) {
        EqualsOneWay(tolerance, x[i], b.items[i]);
      }
    case Object(x) =>
      var y := b.members;
      forall j | 0 <= j < |y| ensures HasKey(x, y[j].key) && SameAt(tolerance, y, x, j) {
        var i := NamesBothWays(x, y, j);
        assert SameAt(tolerance, x, y, i);
        EqualsOneWay(tolerance, x[i].value, y[j].value);
      }
    case _ =>
  }

  /** What equality should mean, with both sides on a par: objects are alike when they bind the same names, each to
      alike values. */
  ghost predicate Alike(tolerance: real, a: Json, b: Json)
    decreases a
  {
    match a
    case Array(x) => b.Array? && |x| == |b.items| && forall i :: 0 <= i < |x| ==> Alike(tolerance, x[i], b.items[i])
    case Object(x) =>
      && b.Object?
      && (forall k: CString :: HasKey(x, k) <==> HasKey(b.members, k))
      && forall i, j :: 0 <= i < |x| && 0 <= j < |b.members| && x[i].key == b.members[j].key
                        ==> Alike(tolerance, x[i].value, b.members[j].value)
    case Str(s) => b == Str(s)
    case Boolean(p) => b == Boolean(p)
    case Number(x) => b.Number? && -tolerance < x - b.x < tolerance
    case Null => b == Null
  }

  /** On valid trees the one-sided check decides exactly that. */
  lemma {:induction false} EqualsMeansAlike(tolerance: real, a: Json, b: Json)
    requires Valid(a) && Valid(b)
    ensures EqualsWithin(tolerance, a, b) <==> Alike(tolerance, a, b)
    ensures tolerance == 0.000001 ==> (Equals(a, b) <==> Alike(tolerance, a, b))
    decreases a
  {
    match a
    case Array(x) =>
      if b.Array? && |x| == |b.items| {
        forall i | 0 <= i < |x|
          ensures EqualsWithin(tolerance, x[i], b.items[i]) <==> Alike(tolerance, x[i], b.items[i])
        {
          EqualsMeansAlike(tolerance, x[i], b.items[i]);
        }
      }
    case Object(x) =>
      if b.Object? {
        var y := b.members;
        forall i, j | 0 <= i < |x| && 0 <= j < |y| ensures ValuesAgree(tolerance, x[i].value, y[j].value) {
          EqualsMeansAlike(tolerance, x[i].value, y[j].value);
        }
        if EqualsWithin(tolerance, a, b) {
          SameNames(tolerance, x, y);
          MembersAlike(tolerance, x, y);
        }
        if Alike(tolerance, a, b) {
          CountsAgree(x, y);
          CountsAgree(y, x);
          AlikeMembers(tolerance, x, y);
        }
      }
    case _ =>
  }

  ghost predicate ValuesAgree(tolerance: real, v: Json, w: Json) {
    EqualsWithin(tolerance, v, w) <==> Alike(tolerance, v, w)
  }

  lemma SameNames(tolerance: real, x: seq<Member<Json>>, y: seq<Member<Json>>)
    requires DistinctKeys(x) && DistinctKeys(y) && |x| == |y| && MembersEqual(tolerance, x, y)
    ensures forall k: CString :: HasKey(x, k) <==> HasKey(y, k)
  {
    forall k: CString ensures HasKey(x, k) <==> HasKey(y, k) {
      if HasKey(y, k) {
        var i := NamesBothWays(x, y, Find(y, k));
      }
      if HasKey(x, k) {
        assert x[Find(x, k)].key == k;
      }
    }
  }

  lemma MembersAlike(tolerance: real, x: seq<Member<Json>>, y: seq<Member<Json>>)
    requires DistinctKeys(x) && DistinctKeys(y) && |x| == |y| && MembersEqual(tolerance, x, y)
    requires forall i, j :: 0 <= i < |x| && 0 <= j < |y| ==> ValuesAgree(tolerance, x[i].value, y[j].value)
    ensures forall i, j :: 0 <= i < |x| && 0 <= j < |y| && x[i].key == y[j].key
                           ==> Alike(tolerance, x[i].value, y[j].value)
  {
    forall i, j | 0 <= i < |x| && 0 <= j < |y| && x[i].key == y[j].key
      ensures Alike(tolerance, x[i].value, y[j].value)
    {
      FindAt(x, i);
      FindAt(y, j);
      assert SameAt(tolerance, x, y, i);
      assert ValuesAgree(tolerance, x[i].value, y[j].value);
    }
  }

  lemma AlikeMembers(tolerance: real, x: seq<Member<Json>>, y: seq<Member<Json>>)
    requires DistinctKeys(x) && DistinctKeys(y) && Alike(tolerance, Object(x), Object(y))
    requires forall i, j :: 0 <= i < |x| && 0 <= j < |y| ==> ValuesAgree(tolerance, x[i].value, y[j].value)
    ensures MembersEqual(tolerance, x, y)
  {
    forall i | 0 <= i < |x| ensures HasKey(y, x[i].key) && SameAt(tolerance, x, y, i) {
      FindAt(x, i);
      assert HasKey(x, x[i].key);
      assert ValuesAgree(tolerance, x[i].value, y[Find(y, x[i].key)].value);
    }
  }

  /** Distinct names, all of which the other list has. */
  lemma CountsAgree(x: seq<Member<Json>>, y: seq<Member<Json>>)
    requires DistinctKeys(x) && forall k: CString :: HasKey(x, k) ==> HasKey(y, k)
    ensures |x| <= |y|
  {
    forall i | 0 <= i < |x| ensures Find(y, x[i].key) < |y| {
      FindAt(x, i);
      assert HasKey(x, x[i].key);
    }
    Pigeonhole.InjectionFits(seq(|x|, i requires 0 <= i < |x| => Find(y, x[i].key)), |y|);
  }

  /** As many members as the other list of the same bindings, in whatever order. */
  lemma SameCount<V>(ms: seq<Member<V>>, ms': seq<Member<V>>, m: map<CString, V>)
    requires Represents(ms, m) && Represents(ms', m)
    ensures |ms| <= |ms'|
  {
    forall i | 0 <= i < |ms| ensures Find(ms', ms[i].key) < |ms'| {
      RepresentsFind(ms', m, ms[i].key);
    }
    Pigeonhole.InjectionFits(seq(|ms|, i requires 0 <= i < |ms| => Find(ms', ms[i].key)), |ms'|);
  }

  /** The order of members does not matter to a comparison, on either side. */
  lemma OrderIgnored(ms: seq<Member<Json>>, ms': seq<Member<Json>>, m: map<CString, Json>, b: Json)
    requires Represents(ms, m) && Represents(ms', m)
    requires Valid(Object(ms)) && Valid(Object(ms')) && Valid(b)
    ensures Equals(Object(ms), b) == Equals(Object(ms'), b)
    ensures Equals(b, Object(ms)) == Equals(b, Object(ms'))
    ensures Equals(Object(ms), Object(ms'))
  {
    if Equals(Object(ms), b) {
      Reordered(EPSILON, ms, ms', m, b);
    }
    if Equals(Object(ms'), b) {
      Reordered(EPSILON, ms', ms, m, b);
    }
    EqualsSymmetric(EPSILON, Object(ms), b);
    EqualsSymmetric(EPSILON, Object(ms'), b);
    EqualsReflexive(EPSILON, Object(ms'));
    Reordered(EPSILON, ms', ms, m, Object(ms'));
  }

  lemma Reordered(tolerance: real, ms: seq<Member<Json>>, ms': seq<Member<Json>>, m: map<CString, Json>, b: Json)
    requires Represents(ms, m) && Represents(ms', m) && EqualsWithin(tolerance, Object(ms), b)
    ensures EqualsWithin(tolerance, Object(ms'), b)
  {
    SameCount(ms, ms', m);
    SameCount(ms', ms, m);
    var y := b.members;
    forall j | 0 <= j < |ms'| ensures HasKey(y, ms'[j].key) && SameAt(tolerance, ms', y, j) {
      var i :| 0 <= i < |ms| && ms[i].key == ms'[j].key;
      RepresentsFind(ms, m, ms[i].key);
      RepresentsFind(ms', m, ms[i].key);
      assert SameAt(tolerance, ms, y, i);
    }
  }

  // ----- copying -----

  /** `json_value_deep_copy`: the copy of a valid tree is the same tree, its members in the same order. */
  method DeepCopy(hash: CString -> nat, v: Json) returns (copy: Json)
    requires Valid(v)
    ensures copy == v
    decreases v
  {
    match v
    case Array(items) =>
      copy := CopyItems(hash, items);
    case Object(ms) =>
      copy := CopyMembers(hash, ms);
    case _ =>
      copy := v;
  }

  method CopyItems(hash: CString -> nat, items: seq<Json>) returns (copy: Json)
    requires forall i :: 0 <= i < |items| ==> Valid(items[i])
    ensures copy == Array(items)
    decreases items
  {
    var copies: seq<Json> := [];
    for i := 0 to |items|
      invariant copies == items[..i]
    {
      var item := DeepCopy(hash, items[i]);
      copies := copies + [item];
    }
    assert items[..|items|] == items;
    return Array(copies);
  }

  method CopyMembers(hash: CString -> nat, ms: seq<Member<Json>>) returns (copy: Json)
    requires DistinctKeys(ms) && forall i :: 0 <= i < |ms| ==> Valid(ms[i].value)
    ensures copy == Object(ms)
    decreases ms
  {
    var object_ := new JsonObject<Json>(hash, 0);
    for i := 0 to |ms|
      invariant object_.Valid() && fresh(object_.Repr) && object_.Members() == ms[..i]
    {
      FindAt(ms, i);
      var value := DeepCopy(hash, ms[Find(ms, ms[i].key)].value);
      AbsentBefore(ms, i);
      var ok := object_.Add(ms[i].key, value);
    }
    assert ms[..|ms|] == ms;
    var members := JsonParser.MembersOf(object_);
    return Object(members);
  }
}
