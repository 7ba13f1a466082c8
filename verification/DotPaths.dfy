/** Dotted paths into nested objects: `json_object_dotget_value` and `json_object_dotset_value`. */
module DotPaths {
  import opened AssocLists
  import opened Bytes
  import opened JsonTrees
  import opened Options

  const DOT: byte := 46

  /** `strchr(name, '.')`: the first dot, or the length if there is none. */
  function FirstDot(name: CString): (d: nat)
    ensures d <= |name| && forall k :: 0 <= k < d ==> name[k] != DOT
    ensures d < |name| ==> name[d] == DOT
  {
    if name == [] || name[0] == DOT then 0 else 1 + FirstDot(name[1..])
  }

  function Head(name: CString): CString {
    name[..FirstDot(name)]
  }

  function Rest(name: CString): CString
    requires FirstDot(name) < |name|
  {
    name[FirstDot(name) + 1..]
  }

  /** The members of the object stored under a name. */
  function ObjectAt(ms: seq<Member<Json>>, key: CString): Option<seq<Member<Json>>> {
    var v := Lookup(ms, key);
    if v.Some? && v.value.Object? then Some(v.value.members) else None
  }

  function DotGet(ms: seq<Member<Json>>, name: CString): Option<Json>
    decreases |name|
  {
    if FirstDot(name) == |name| then Lookup(ms, name)
    else
      var sub := ObjectAt(ms, Head(name));
      if sub.None? then None else DotGet(sub.value, Rest(name))
  }

  /** The members after the call, and whether it succeeded. A nested object that is there is changed in place; one that
      is missing is built first and then added. */
  function DotSet(ms: seq<Member<Json>>, name: CString, value: Json): (r: (seq<Member<Json>>, bool))
    decreases |name|
  {
    if FirstDot(name) == |name| then (Set(ms, name, value), true)
    else
      var v := Lookup(ms, Head(name));
      if v.None? then
        var r := DotSet([], Rest(name), value);
        if r.1 then (ms + [Member(Head(name), Object(r.0))], true) else (ms, false)
      else if !v.value.Object? then (ms, false)
      else
        var r := DotSet(v.value.members, Rest(name), value);
        (Set(ms, Head(name), Object(r.0)), r.1)
  }

  /** `q` is `p`, or a path below it. */
  ghost predicate Within(p: CString, q: CString) {
    p == q || (|p| < |q| && q[..|p|] == p && q[|p|] == DOT)
  }

  /** On the way to `name`, there is nothing yet or an object where the path has its dot `d`. */
  ghost predicate Clear(ms: seq<Member<Json>>, name: CString, d: nat)
    requires d <= |name|
  {
    var v := DotGet(ms, name[..d]);
    v.None? || v.value.Object?
  }

  /** Nothing on the way to `name` is anything but an object. */
  ghost predicate Passable(ms: seq<Member<Json>>, name: CString) {
    forall d :: 0 <= d < |name| && name[d] == DOT ==> Clear(ms, name, d)
  }

  lemma DotAt(a: CString, b: CString)
    requires FirstDot(a) == |a|
    ensures FirstDot(a + [DOT] + b) == |a| && Head(a + [DOT] + b) == a && Rest(a + [DOT] + b) == b
  {
    var n := a + [DOT] + b;
    assert n[|a|] == DOT;
    assert forall k :: 0 <= k < |a| ==> n[k] == a[k];
    assert FirstDot(n) == |a|;
  }

  lemma Split(name: CString)
    requires FirstDot(name) < |name|
    ensures name == Head(name) + [DOT] + Rest(name) && FirstDot(Head(name)) == |Head(name)|
  {
    assert forall k :: 0 <= k < |Head(name)| ==> Head(name)[k] == name[k];
  }

  /** A path below a path: first go to the one, then go on from the object there. */
  lemma {:induction false} DotGetComposes(ms: seq<Member<Json>>, a: CString, b: CString)
    ensures DotGet(ms, a + [DOT] + b)
            == if DotGet(ms, a).Some? && DotGet(ms, a).value.Object?
               then DotGet(DotGet(ms, a).value.members, b) else None
    decreases |a|
  {
    if FirstDot(a) == |a| {
      DotAt(a, b);
    } else {
      Split(a);
      var h, r := Head(a), Rest(a);
      assert a + [DOT] + b == h + [DOT] + (r + [DOT] + b);
      DotAt(h, r + [DOT] + b);
      if ObjectAt(ms, h).Some? {
        DotGetComposes(ObjectAt(ms, h).value, r, b);
      }
    }
  }

  /** What a successful set put there is found there. */
  lemma {:induction false} GetAfterSet(ms: seq<Member<Json>>, name: CString, value: Json)
    requires DotSet(ms, name, value).1
    ensures DotGet(DotSet(ms, name, value).0, name) == Some(value)
    decreases |name|
  {
    if FirstDot(name) == |name| {
      SetLookup(ms, name, value, name);
    } else {
      var h := Head(name);
      var sub := if Lookup(ms, h).Some? then Lookup(ms, h).value.members else [];
      GetAfterSet(sub, Rest(name), value);
      SetLookup(ms, h, Object(DotSet(sub, Rest(name), value).0), h);
    }
  }

  lemma EmptyHasNothing(name: CString)
    ensures DotGet([], name) == None
  {
  }

  /** With the same head, the rests are related as the paths are. */
  lemma WithinRest(p: CString, q: CString)
    requires FirstDot(p) < |p| && FirstDot(q) < |q| && Head(p) == Head(q)
    ensures Within(p, q) <==> Within(Rest(p), Rest(q))
  {
    Split(p);
    Split(q);
    var h := Head(p);
    if |p| < |q| {
      assert q[..|p|] == h + [DOT] + Rest(q)[..|Rest(p)|];
    }
    if Within(Rest(p), Rest(q)) {
      assert p == q || q[|p|] == Rest(q)[|Rest(p)|];
    }
    if Within(p, q) && p != q {
      assert q[|p|] == Rest(q)[|Rest(p)|];
      assert Rest(q)[..|Rest(p)|] == q[..|p|][|h| + 1..] == Rest(p);
    }
  }

  lemma HeadWithin(name: CString)
    requires FirstDot(name) < |name|
    ensures Within(Head(name), name)
  {
  }

  /** A failed call leaves all members as they were. */
  lemma {:induction false} FailureChangesNothing(ms: seq<Member<Json>>, name: CString, value: Json)
    requires !DotSet(ms, name, value).1
    ensures DotSet(ms, name, value).0 == ms
    decreases |name|
  {
    if ObjectAt(ms, Head(name)).Some? {
      FailureChangesNothing(ObjectAt(ms, Head(name)).value, Rest(name), value);
    }
  }

  /** The object that a path leads through first, or the empty one that is built there. */
  ghost function Below(ms: seq<Member<Json>>, key: CString): seq<Member<Json>> {
    if ObjectAt(ms, key).Some? then ObjectAt(ms, key).value else []
  }

  /** What a successful set does to the lookups of single names. */
  lemma HeadAfterSet(ms: seq<Member<Json>>, name: CString, value: Json, g: CString)
    requires FirstDot(name) < |name| && DotSet(ms, name, value).1
    ensures var after, h, sub := DotSet(ms, name, value).0, Head(name), Below(ms, Head(name));
            && DotSet(sub, Rest(name), value).1
            && Lookup(after, g) == if g == h then Some(Object(DotSet(sub, Rest(name), value).0)) else Lookup(ms, g)
  {
    SetLookup(ms, Head(name), Object(DotSet(Below(ms, Head(name)), Rest(name), value).0), g);
  }

  /** The same head: the paths part further below. */
  lemma SameHead(ms: seq<Member<Json>>, name: CString, value: Json, p: CString, after: seq<Member<Json>>)
    requires FirstDot(name) < |name| && FirstDot(p) < |p| && Head(p) == Head(name)
    requires var sub, sub' := Below(ms, Head(name)), DotSet(Below(ms, Head(name)), Rest(name), value).0;
             && ObjectAt(after, Head(name)) == Some(sub')
             && DotGet(sub', Rest(p)) == DotGet(sub, Rest(p))
    ensures DotGet(after, p) == DotGet(ms, p)
  {
    EmptyHasNothing(Rest(p));
  }

  /** A path that is neither above nor below the one set answers as before. */
  lemma {:induction false} OthersUnchanged(ms: seq<Member<Json>>, name: CString, value: Json, p: CString)
    requires !Within(p, name) && !Within(name, p)
    ensures DotGet(DotSet(ms, name, value).0, p) == DotGet(ms, p)
    decreases |name|
  {
    var after, h, g := DotSet(ms, name, value).0, Head(name), Head(p);
    if !DotSet(ms, name, value).1 {
      FailureChangesNothing(ms, name, value);
    } else if FirstDot(name) == |name| {
      SetLookup(ms, name, value, g);
      if FirstDot(p) < |p| && g == name {
        HeadWithin(p);
      }
    } else {
      HeadAfterSet(ms, name, value, g);
      if g == h {
        if FirstDot(p) == |p| {
          HeadWithin(name);
        } else {
          WithinRest(p, name);
          WithinRest(name, p);
          OthersUnchanged(Below(ms, h), Rest(name), value, Rest(p));
          SameHead(ms, name, value, p, after);
        }
      }
    }
  }

  /** In an empty object every path can be set. */
  lemma {:induction false} EmptyAcceptsAll(name: CString, value: Json)
    ensures DotSet([], name, value).1
    decreases |name|
  {
    if FirstDot(name) < |name| {
      EmptyAcceptsAll(Rest(name), value);
    }
  }

  /** A part of the path that reaches beyond the head. */
  lemma PrefixBelow(ms: seq<Member<Json>>, name: CString, e: nat, d: nat)
    requires FirstDot(name) < |name| && e <= |Rest(name)| && d == |Head(name)| + 1 + e
    ensures d <= |name|
    ensures DotGet(ms, name[..d])
            == if ObjectAt(ms, Head(name)).None? then None else DotGet(ObjectAt(ms, Head(name)).value, Rest(name)[..e])
  {
    var h, r := Head(name), Rest(name);
    Split(name);
    assert name[..d] == h + [DOT] + r[..e];
    DotGetComposes(ms, h, r[..e]);
  }

  /** The dots of a path: the one behind its head, and those of its rest. */
  lemma DotsOf(name: CString, d: nat)
    requires FirstDot(name) < |name| && d < |name| && name[d] == DOT
    ensures d == |Head(name)| || (d > |Head(name)| && Rest(name)[d - |Head(name)| - 1] == DOT)
  {
  }

  lemma ClearFromRest(ms: seq<Member<Json>>, name: CString, sub: seq<Member<Json>>, d: nat)
    requires FirstDot(name) < |name| && ObjectAt(ms, Head(name)) == Some(sub) && Passable(sub, Rest(name))
    requires d < |name| && name[d] == DOT
    ensures Clear(ms, name, d)
  {
    DotsOf(name, d);
    if d > |Head(name)| {
      var e := d - |Head(name)| - 1;
      PrefixBelow(ms, name, e, d);
      assert Clear(sub, Rest(name), e);
    } else {
      Split(name);
      assert name[..d] == Head(name);
    }
  }

  lemma PassableRest(ms: seq<Member<Json>>, name: CString, sub: seq<Member<Json>>)
    requires FirstDot(name) < |name| && ObjectAt(ms, Head(name)) == Some(sub) && Passable(sub, Rest(name))
    ensures Passable(ms, name)
  {
    forall d | 0 <= d < |name| && name[d] == DOT ensures Clear(ms, name, d) {
      ClearFromRest(ms, name, sub, d);
    }
  }

  lemma RestPassable(ms: seq<Member<Json>>, name: CString, sub: seq<Member<Json>>)
    requires FirstDot(name) < |name| && ObjectAt(ms, Head(name)) == Some(sub) && Passable(ms, name)
    ensures Passable(sub, Rest(name))
  {
    var r := Rest(name);
    forall e | 0 <= e < |r| && r[e] == DOT ensures Clear(sub, r, e) {
      var d := |Head(name)| + 1 + e;
      assert name[d] == DOT;
      PrefixBelow(ms, name, e, d);
      assert Clear(ms, name, d);
    }
  }

  lemma NothingBelow(ms: seq<Member<Json>>, name: CString)
    requires FirstDot(name) < |name| && Lookup(ms, Head(name)).None?
    ensures Passable(ms, name)
  {
    forall d | 0 <= d < |name| && name[d] == DOT ensures Clear(ms, name, d) {
      DotsOf(name, d);
      if d > |Head(name)| {
        PrefixBelow(ms, name, d - |Head(name)| - 1, d);
      } else {
        Split(name);
        assert name[..d] == Head(name);
      }
    }
  }

  /** A set succeeds if and only if nothing on the way is anything but an object. */
  lemma {:induction false} SucceedsWhenPassable(ms: seq<Member<Json>>, name: CString, value: Json)
    ensures DotSet(ms, name, value).1 <==> Passable(ms, name)
    decreases |name|
  {
    var h := Head(name);
    if FirstDot(name) < |name| {
      if Lookup(ms, h).None? {
        EmptyAcceptsAll(Rest(name), value);
        NothingBelow(ms, name);
      } else if ObjectAt(ms, h).Some? {
        var sub := ObjectAt(ms, h).value;
        SucceedsWhenPassable(sub, Rest(name), value);
        if Passable(sub, Rest(name)) {
          PassableRest(ms, name, sub);
        }
        if Passable(ms, name) {
          RestPassable(ms, name, sub);
        }
      } else {
        Split(name);
        assert !Clear(ms, name, |h|);
      }
    }
  }
}
