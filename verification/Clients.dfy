/** Arbitrary clients: any run of calls on a JSON object or on a vector, with what it promises as a whole. */
module Clients {
  import opened AssocLists
  import opened Bytes
  import opened JsonObjects
  import Vectors

  method Call<V(0)>(obj: JsonObject<V>, op: Op<V>) returns (reply: Reply<V>)
    requires obj.Valid()
    modifies obj.Repr
    ensures obj.Valid() && fresh(obj.Repr - old(obj.Repr))
    ensures (obj.Members(), reply) == Step(old(obj.Members()), op)
  {
    var ok := true;
    match op
    case Add(k, v) =>
      ok := obj.Add(k, v);
      return Status(ok);
    case SetValue(k, v) =>
      ok := obj.SetValue(k, v);
      return Status(ok);
    case Remove(k) =>
      ok := obj.Remove(k);
      return Status(ok);
    case Clear =>
      ok := obj.Clear();
      return Status(ok);
    case Get(k) =>
      var found := obj.GetValue(k);
      return Value(found);
  }

  lemma RunNext<V>(start: seq<Member<V>>, ops: seq<Op<V>>, i: nat, replies: seq<Reply<V>>, ms: seq<Member<V>>)
    requires i < |ops| && Run(start, ops) == (Run(ms, ops[i..]).0, replies + Run(ms, ops[i..]).1)
    ensures var (next, reply) := Step(ms, ops[i]);
            Run(start, ops) == (Run(next, ops[i + 1..]).0, replies + [reply] + Run(next, ops[i + 1..]).1)
  {
    assert ops[i..][1..] == ops[i + 1..];
    var (next, reply) := Step(ms, ops[i]);
    Regroup(replies, [reply], Run(next, ops[i + 1..]).1);
  }

  /** Whatever calls are made, in whatever order and with whatever hash function, the object behaves as the ordered list
      and answers as a finite map. */
  method AnyRun<V(0)>(obj: JsonObject<V>, ops: seq<Op<V>>, ghost m: map<CString, V>) returns (replies: seq<Reply<V>>)
    requires obj.Valid() && Represents(obj.Members(), m)
    modifies obj.Repr
    ensures obj.Valid() && fresh(obj.Repr - old(obj.Repr))
    ensures (obj.Members(), replies) == Run(old(obj.Members()), ops)
    ensures Represents(obj.Members(), MapRun(m, ops).0) && replies == MapRun(m, ops).1
  {
    ghost var start := obj.Members();
    replies := [];
    assert ops[0..] == ops && replies + Run(start, ops).1 == Run(start, ops).1;
    for i := 0 to |ops|
      invariant obj.Valid() && fresh(obj.Repr - old(obj.Repr))
      invariant Run(start, ops) == (Run(obj.Members(), ops[i..]).0, replies + Run(obj.Members(), ops[i..]).1)
    {
      RunNext(start, ops, i, replies, obj.Members());
      var reply := Call(obj, ops[i]);
      replies := replies + [reply];
    }
    assert ops[|ops|..] == [] && replies + [] == replies;
    RunRepresents(start, m, ops);
  }

  method CallVector<T(0)>(v: Vectors.Vector<T>, op: Vectors.Op<T>)
    requires v.Valid() && (op.PopBack? ==> v.size > 0)
    modifies v, v.data
    ensures v.Valid() && (v.data == old(v.data) || fresh(v.data))
    ensures v.Contents() == Vectors.ListStep(old(v.Contents()), op)
    ensures v.Numbers() == Vectors.ShapeStep(old(v.Numbers()), op)
  {
    var ok := true;
    match op
    case PushBack(x) => v.PushBack(x);
    case Insert(index, x) => ok := v.Insert(index, x);
    case PopBack => v.PopBack();
    case Erase(index) => ok := v.Erase(index);
  }

  /** Any run of calls on a new vector: the contents are those of the sequence, and twice the number of elements that
      reallocation copied is at most four for each call and the initial capacity. */
  method AnyVectorRun<T(0)>(initial: nat, ops: seq<Vectors.Op<T>>) returns (v: Vectors.Vector<T>)
    requires Vectors.Legal([], ops)
    ensures fresh(v) && v.Valid() && v.Contents() == Vectors.ListRun([], ops)
    ensures 2 * v.copied <= 4 * |ops| + if initial < 2 then 2 else initial
  {
    v := new Vectors.Vector<T>(initial);
    ghost var shape := v.Numbers();
    assert ops[0..] == ops;
    for i := 0 to |ops|
      invariant v.Valid() && fresh(v) && fresh(v.data) && Vectors.Legal(v.Contents(), ops[i..])
      invariant Vectors.ListRun(v.Contents(), ops[i..]) == Vectors.ListRun([], ops)
      invariant Vectors.ShapeRun(v.Numbers(), v.Contents(), ops[i..]) == Vectors.ShapeRun(shape, [], ops)
    {
      assert ops[i..][1..] == ops[i + 1..];
      CallVector(v, ops[i]);
    }
    Vectors.AmortizedReallocation(initial, ops);
  }
}
