/**
 Ordered association lists: what a JSON object holds, in member order. The hash table is proved
 to behave as these lists, and these lists to behave as finite maps.
 */
module AssocLists {
  import opened Bytes
  import opened Options

  datatype Member<+V> = Member(key: CString, value: V)

  ghost predicate DistinctKeys<V>(ms: seq<Member<V>>) {
    forall i, j :: 0 <= i < j < |ms| ==> ms[i].key != ms[j].key
  }

  /** Linear scan by position: the first member named `key`, or `|ms|`. */
  function Find<V>(ms: seq<Member<V>>, key: CString): (i: nat)
    ensures i <= |ms|
    ensures i < |ms| ==> ms[i].key == key
    ensures forall j :: 0 <= j < i ==> ms[j].key != key
  {
    if |ms| == 0 || ms[0].key == key then 0 else 1 + Find(ms[1..], key)
  }

  function Lookup<V>(ms: seq<Member<V>>, key: CString): Option<V> {
    var i := Find(ms, key);
    if i < |ms| then Some(ms[i].value) else None
  }

  predicate HasKey<V>(ms: seq<Member<V>>, key: CString) {
    Find(ms, key) < |ms|
  }

  lemma HasKeyMeans<V>(ms: seq<Member<V>>, key: CString)
    ensures HasKey(ms, key) <==> exists i :: 0 <= i < |ms| && ms[i].key == key
  {
  }

  /** A new name goes to the end; an existing name keeps its place and gets the new value. */
  function Set<V>(ms: seq<Member<V>>, key: CString, value: V): seq<Member<V>> {
    var i := Find(ms, key);
    if i < |ms| then ms[i := Member(key, value)] else ms + [Member(key, value)]
  }

  /** Member `i` goes, and the last member takes its place. */
  function SwapRemove<V>(ms: seq<Member<V>>, i: nat): seq<Member<V>>
    requires i < |ms|
  {
    if i == |ms| - 1 then ms[..i] else ms[i := ms[|ms| - 1]][..|ms| - 1]
  }

  /** One call on a JSON object. */
  datatype Op<+V> =
    | Add(key: CString, value: V)
    | SetValue(key: CString, value: V)
    | Remove(key: CString)
    | Clear
    | Get(key: CString)

  /** What a call answers: a status, or the value found. */
  datatype Reply<+V> = Status(ok: bool) | Value(found: Option<V>)

  function Step<V>(ms: seq<Member<V>>, op: Op<V>): (seq<Member<V>>, Reply<V>) {
    match op
    case Add(k, v) => if HasKey(ms, k) then (ms, Status(false)) else (ms + [Member(k, v)], Status(true))
    case SetValue(k, v) => (Set(ms, k, v), Status(true))
    case Remove(k) => if HasKey(ms, k) then (SwapRemove(ms, Find(ms, k)), Status(true)) else (ms, Status(false))
    case Clear => ([], Status(true))
    case Get(k) => (ms, Value(Lookup(ms, k)))
  }

  /** The same calls on a finite map, which has no order. */
  function MapStep<V>(m: map<CString, V>, op: Op<V>): (map<CString, V>, Reply<V>) {
    match op
    case Add(k, v) => if k in m then (m, Status(false)) else (m[k := v], Status(true))
    case SetValue(k, v) => (m[k := v], Status(true))
    case Remove(k) => (m - {k}, Status(k in m))
    case Clear => (map[], Status(true))
    case Get(k) => (m, Value(if k in m then Some(m[k]) else None))
  }

  ghost function Run<V>(ms: seq<Member<V>>, ops: seq<Op<V>>): (seq<Member<V>>, seq<Reply<V>>)
    decreases |ops|
  {
    if ops == [] then (ms, [])
    else
      var (next, reply) := Step(ms, ops[0]);
      var (end, replies) := Run(next, ops[1..]);
      (end, [reply] + replies)
  }

  ghost function MapRun<V>(m: map<CString, V>, ops: seq<Op<V>>): (map<CString, V>, seq<Reply<V>>)
    decreases |ops|
  {
    if ops == [] then (m, [])
    else
      var (next, reply) := MapStep(m, ops[0]);
      var (end, replies) := MapRun(next, ops[1..]);
      (end, [reply] + replies)
  }

  /** `ms` holds exactly the bindings of `m`, each name once. */
  ghost predicate Represents<V>(ms: seq<Member<V>>, m: map<CString, V>) {
    && DistinctKeys(ms)
    && (forall i :: 0 <= i < |ms| ==> ms[i].key in m && m[ms[i].key] == ms[i].value)
    && (forall k :: k in m ==> exists i :: 0 <= i < |ms| && ms[i].key == k)
  }

  /** With distinct names, the position of a member is where the scan finds it. */
  lemma FindAt<V>(ms: seq<Member<V>>, i: nat)
    requires DistinctKeys(ms) && i < |ms|
    ensures Find(ms, ms[i].key) == i
  {
  }

  lemma FindIs<V>(ms: seq<Member<V>>, key: CString, i: nat)
    requires i <= |ms| && (i < |ms| ==> ms[i].key == key) && forall j :: 0 <= j < i ==> ms[j].key != key
    ensures Find(ms, key) == i
  {
  }

  /** After setting `k`, a lookup gives the new value for `k` and the old answer for every other name. */
  lemma SetLookup<V>(ms: seq<Member<V>>, k: CString, v: V, name: CString)
    ensures Lookup(Set(ms, k, v), name) == if name == k then Some(v) else Lookup(ms, name)
  {
    var i, j, after := Find(ms, k), Find(ms, name), Set(ms, k, v);
    FindIs(after, name, if j == |ms| && name != k then |after| else j);
  }

  lemma RepresentsFind<V>(ms: seq<Member<V>>, m: map<CString, V>, k: CString)
    requires Represents(ms, m)
    ensures HasKey(ms, k) <==> k in m
    ensures Lookup(ms, k) == if k in m then Some(m[k]) else None
  {
    if k in m {
      var i :| 0 <= i < |ms| && ms[i].key == k;
    }
  }

  lemma SetRepresents<V>(ms: seq<Member<V>>, m: map<CString, V>, k: CString, v: V)
    requires Represents(ms, m)
    ensures Represents(Set(ms, k, v), m[k := v])
  {
    var after, m' := Set(ms, k, v), m[k := v];
    RepresentsFind(ms, m, k);
    forall k' | k' in m' ensures exists i :: 0 <= i < |after| && after[i].key == k' {
      if k' == k {
        assert after[Find(ms, k)].key == k;
      } else {
        var i :| 0 <= i < |ms| && ms[i].key == k';
        assert after[i].key == k';
      }
    }
  }

  lemma SwapRemoveRepresents<V>(ms: seq<Member<V>>, m: map<CString, V>, i: nat)
    requires Represents(ms, m) && i < |ms|
    ensures Represents(SwapRemove(ms, i), m - {ms[i].key})
  {
    var after, m' := SwapRemove(ms, i), m - {ms[i].key};
    forall k | k in m' ensures exists j :: 0 <= j < |after| && after[j].key == k {
      var j :| 0 <= j < |ms| && ms[j].key == k;
      if j == |ms| - 1 {
        assert after[i].key == k;
      } else {
        assert after[j].key == k;
      }
    }
  }

  lemma StepRepresents<V>(ms: seq<Member<V>>, m: map<CString, V>, op: Op<V>)
    requires Represents(ms, m)
    ensures Represents(Step(ms, op).0, MapStep(m, op).0)
    ensures Step(ms, op).1 == MapStep(m, op).1
  {
    match op
    case Add(k, v) =>
      RepresentsFind(ms, m, k);
      SetRepresents(ms, m, k, v);
    case SetValue(k, v) =>
      SetRepresents(ms, m, k, v);
    case Remove(k) =>
      RepresentsFind(ms, m, k);
      if k in m {
        SwapRemoveRepresents(ms, m, Find(ms, k));
      } else {
        assert m - {k} == m;
      }
    case Clear =>
    case Get(k) =>
      RepresentsFind(ms, m, k);
  }

  /** Over any run of calls, an ordered list with swap-with-last removal answers as a finite map. */
  lemma {:induction false} RunRepresents<V>(ms: seq<Member<V>>, m: map<CString, V>, ops: seq<Op<V>>)
    requires Represents(ms, m)
    ensures Represents(Run(ms, ops).0, MapRun(m, ops).0)
    ensures Run(ms, ops).1 == MapRun(m, ops).1
    decreases |ops|
  {
    if ops != [] {
      StepRepresents(ms, m, ops[0]);
      RunRepresents(Step(ms, ops[0]).0, MapStep(m, ops[0]).0, ops[1..]);
    }
  }
}
