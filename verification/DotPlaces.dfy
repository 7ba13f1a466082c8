/** Where `json_object_dotset_value` (include/parson.c:2172-2221) writes: one place a level, and nowhere else. */
module DotPlaces {
  import opened AssocLists
  import opened Bytes
  import opened DotPaths
  import opened JsonSyntax
  import opened JsonTrees
  import opened Options

  ghost predicate NoDot(name: CString) {
    forall k :: 0 <= k < |name| ==> name[k] != Char('.')
  }

  /** The names of a path, with a dot between any two of them. */
  ghost function Dotted(path: seq<CString>): CString
    requires path != []
  {
    if |path| == 1 then path[0] else path[0] + [Char('.')] + Dotted(path[1..])
  }

  /** `value` was put where the path leads. On every level the other members keep their place, name and value, a member
      that was there keeps its place and name, and one that was missing stands at the end. */
  ghost predicate PutAlong(ms: seq<Member<Json>>, path: seq<CString>, value: Json, after: seq<Member<Json>>)
    requires path != []
    decreases |path|, 1
  {
    && |ms| <= |after|
    && (forall k :: 0 <= k < |ms| && ms[k].key != path[0] ==> after[k] == ms[k])
    && (forall k :: 0 <= k < |ms| && ms[k].key == path[0] ==>
                      |after| == |ms| && PutAt(Some(ms[k]), path, value, after[k]))
    && ((forall k :: 0 <= k < |ms| ==> ms[k].key != path[0]) ==>
          |after| == |ms| + 1 && PutAt(None, path, value, after[|ms|]))
  }

  /** The member at the place itself, before and after: it holds the value, or an object in which the rest of the path
      leads to the value. */
  ghost predicate PutAt(before: Option<Member<Json>>, path: seq<CString>, value: Json, after: Member<Json>)
    requires path != []
    decreases |path|, 0
  {
    && after.key == path[0]
    && (before.Some? && |path| > 1 ==> before.value.value.Object?)
    && if |path| == 1 then after.value == value
       else after.value.Object?
            && PutAlong(if before.Some? then before.value.value.members else [], path[1..], value, after.value.members)
  }

  lemma NameFound(ms: seq<Member<Json>>, key: CString, k: nat)
    requires DistinctKeys(ms) && k < |ms| && ms[k].key == key
    ensures Find(ms, key) == k && Lookup(ms, key) == Some(ms[k].value)
  {
    FindAt(ms, k);
  }

  lemma NoDotFound(name: CString)
    requires NoDot(name)
    ensures FirstDot(name) == |name|
  {
  }

  /** One level: what the list of members becomes when the head gets the value `v`. */
  lemma LevelPut(ms: seq<Member<Json>>, path: seq<CString>, value: Json, v: Json, after: seq<Member<Json>>)
    requires path != [] && DistinctKeys(ms) && after == Set(ms, path[0], v)
    requires var k := Find(ms, path[0]);
             PutAt(if k < |ms| then Some(ms[k]) else None, path, value, Member(path[0], v))
    ensures PutAlong(ms, path, value, after)
  {
    forall k | 0 <= k < |ms| && ms[k].key == path[0] ensures Find(ms, path[0]) == k {
      NameFound(ms, path[0], k);
    }
  }

  /** A successful call writes along the path alone. */
  lemma {:induction false} SetPutsAlong(ms: seq<Member<Json>>, path: seq<CString>, value: Json)
    requires path != [] && (forall i :: 0 <= i < |path| ==> NoDot(path[i])) && Valid(Object(ms))
    requires DotSet(ms, Dotted(path), value).1
    ensures PutAlong(ms, path, value, DotSet(ms, Dotted(path), value).0)
    decreases |path|
  {
    var h, name := path[0], Dotted(path);
    NoDotFound(h);
    if |path| == 1 {
      LevelPut(ms, path, value, value, DotSet(ms, name, value).0);
    } else {
      var rest, sub := path[1..], Below(ms, h);
      DotAt(h, Dotted(rest));
      BelowValid(ms, h);
      SetPutsAlong(sub, rest, value);
      LevelPut(ms, path, value, Object(DotSet(sub, Dotted(rest), value).0), DotSet(ms, name, value).0);
    }
  }

  lemma BelowValid(ms: seq<Member<Json>>, key: CString)
    requires Valid(Object(ms))
    ensures Valid(Object(Below(ms, key)))
  {
    if ObjectAt(ms, key).Some? {
      assert Valid(ms[Find(ms, key)].value);
    }
  }
}
