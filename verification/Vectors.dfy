/** The growable array of include/vector.c: contents as a sequence, capacity rules, and what reallocation costs. */
module Vectors {

  const MINIMUM_CAPACITY: nat := 2
  const GROWTH_FACTOR: nat := 2

  /** The macro is the integer quotient 1 / 4. */
  const SHRINK_THRESHOLD: nat := 0

  datatype Op<+T> = PushBack(x: T) | Insert(index: nat, x: T) | PopBack | Erase(index: nat)

  /** What a call does to the contents; an index out of range is refused. */
  function ListStep<T>(s: seq<T>, op: Op<T>): seq<T>
    requires op.PopBack? ==> s != []
  {
    match op
    case PushBack(x) => s + [x]
    case Insert(i, x) => if i > |s| then s else s[..i] + [x] + s[i..]
    case PopBack => s[..|s| - 1]
    case Erase(i) => if i >= |s| then s else s[..i] + s[i + 1..]
  }

  /** The numbers a vector keeps, and how many elements reallocation has copied so far. */
  datatype Shape = Shape(size: nat, capacity: nat, copied: nat)

  /** `_vector_reallocate` */
  function Reallocated(s: Shape, newCapacity: nat): Shape {
    if newCapacity >= MINIMUM_CAPACITY then Shape(s.size, newCapacity, s.copied + s.size)
    else if s.capacity > MINIMUM_CAPACITY then Shape(s.size, MINIMUM_CAPACITY, s.copied + s.size)
    else s
  }

  /** `_vector_adjust_capacity` */
  function Adjusted(s: Shape): Shape {
    Reallocated(s, if s.size * GROWTH_FACTOR > 1 then s.size * GROWTH_FACTOR else 1)
  }

  function ShapeStep<T>(s: Shape, op: Op<T>): Shape
    requires op.PopBack? ==> s.size > 0
  {
    match op
    case PushBack(_) => Grown(s)
    case Insert(i, _) => if i > s.size then s else Grown(s)
    case PopBack =>
      var t := s.(size := s.size - 1);
      if t.size == t.capacity * SHRINK_THRESHOLD then Adjusted(t) else t
    case Erase(i) =>
      if i >= s.size then s
      else
        var t := s.(size := s.size - 1);
        if t.size == t.capacity / 4 then Adjusted(t) else t
  }

  function Grown(s: Shape): Shape {
    var g := if s.size == s.capacity then Adjusted(s) else s;
    g.(size := s.size + 1)
  }

  class Vector<T(0)> {
    var size: nat
    var capacity: nat
    var data: array<T>
    ghost var copied: nat

    ghost predicate Valid()
      reads this
    {
      MINIMUM_CAPACITY <= capacity && size <= capacity && data.Length == capacity
    }

    ghost function Contents(): (s: seq<T>)
      reads this, data
      requires Valid()
      ensures |s| == size
    {
      data[..size]
    }

    ghost function Numbers(): Shape
      reads this
    {
      Shape(size, capacity, copied)
    }

    /** `vector_setup` */
    constructor (initial: nat)
      ensures Valid() && fresh(data) && Contents() == []
      ensures Numbers() == Shape(0, if initial < 2 then 2 else initial, 0)
    {
      var wanted := if initial < MINIMUM_CAPACITY then MINIMUM_CAPACITY else initial;
      size := 0;
      capacity := wanted;
      data := new T[wanted];
      copied := 0;
    }

    /** `_vector_reallocate`: a buffer of the new capacity with the same contents, unless there is nothing to gain. */
    method Reallocate(wanted: nat)
      requires Valid() && size <= wanted
      modifies this
      ensures Valid() && (data == old(data) || fresh(data))
      ensures Contents() == old(Contents()) && Numbers() == Reallocated(old(Numbers()), wanted)
    {
      var newCapacity := wanted;
      if newCapacity < MINIMUM_CAPACITY {
        if capacity > MINIMUM_CAPACITY {
          newCapacity := MINIMUM_CAPACITY;
        } else {
          return;
        }
      }
      var bigger := new T[newCapacity];
      forall i | 0 <= i < size {
        bigger[i] := data[i];
      }
      assert bigger[..size] == data[..size];
      data := bigger;
      capacity := newCapacity;
      copied := copied + size;
    }

    method AdjustCapacity()
      requires Valid()
      modifies this
      ensures Valid() && (data == old(data) || fresh(data))
      ensures Contents() == old(Contents()) && Numbers() == Adjusted(old(Numbers()))
    {
      Reallocate(if size * GROWTH_FACTOR > 1 then size * GROWTH_FACTOR else 1);
    }

    method PushBack(element: T)
      requires Valid()
      modifies this, data
      ensures Valid() && (data == old(data) || fresh(data))
      ensures Contents() == ListStep(old(Contents()), Op.PushBack(element))
      ensures Numbers() == ShapeStep(old(Numbers()), Op.PushBack(element))
    {
      if size == capacity {
        AdjustCapacity();
      }
      data[size] := element;
      size := size + 1;
    }

    /** `_vector_move_right` */
    method MoveRight(index: nat)
      requires Valid() && index <= size < capacity
      modifies data
      ensures data[..index] == old(data[..index]) && data[index + 1..size + 1] == old(data[index..size])
    {
      var k := size;
      while k > index
        invariant index <= k <= size
        invariant data[..k] == old(data[..k]) && data[k + 1..size + 1] == old(data[k..size])
      {
        data[k] := data[k - 1];
        k := k - 1;
        assert data[k + 1..size + 1] == [data[k + 1]] + data[k + 2..size + 1];
        assert old(data[k..size]) == [old(data[k])] + old(data[k + 1..size]);
      }
    }

    method PutAt(index: nat, element: T, ghost left: seq<T>, ghost right: seq<T>)
      requires Valid() && index <= size < capacity
      requires data[..index] == left && data[index + 1..size + 1] == right
      modifies this`size, data
      ensures Valid() && size == old(size) + 1 && Contents() == left + [element] + right
    {
      data[index] := element;
      size := size + 1;
      assert Contents() == data[..index] + [element] + data[index + 1..size];
    }

    method Insert(index: nat, element: T) returns (ok: bool)
      requires Valid()
      modifies this, data
      ensures Valid() && (data == old(data) || fresh(data))
      ensures ok <==> index <= old(size)
      ensures Contents() == ListStep(old(Contents()), Op.Insert(index, element))
      ensures Numbers() == ShapeStep(old(Numbers()), Op.Insert(index, element))
    {
      if index > size {
        return false;
      }
      if size == capacity {
        AdjustCapacity();
      }
      ghost var s := Contents();
      assert data[..index] == s[..index] && data[index..size] == s[index..];
      MoveRight(index);
      PutAt(index, element, s[..index], s[index..]);
      return true;
    }

    method PopBack()
      requires Valid() && size > 0
      modifies this
      ensures Valid() && (data == old(data) || fresh(data))
      ensures Contents() == ListStep(old(Contents()), Op.PopBack)
      ensures Numbers() == ShapeStep<T>(old(Numbers()), Op.PopBack)
    {
      size := size - 1;
      if size == capacity * SHRINK_THRESHOLD {
        AdjustCapacity();
      }
    }

    /** `_vector_move_left` */
    method MoveLeft(index: nat)
      requires Valid() && index < size
      modifies data
      ensures data[..index] == old(data[..index]) && data[index..size - 1] == old(data[index + 1..size])
    {
      var k := index;
      while k < size - 1
        invariant index <= k <= size - 1
        invariant data[..index] == old(data[..index]) && data[index..k] == old(data[index + 1..k + 1])
        invariant data[k + 1..] == old(data[k + 1..])
      {
        assert data[k + 1] == data[k + 1..][0] == old(data[k + 1..])[0];
        data[k] := data[k + 1];
        k := k + 1;
        assert data[index..k] == data[index..k - 1] + [data[k - 1]];
      }
    }

    method Erase(index: nat) returns (ok: bool)
      requires Valid()
      modifies this, data
      ensures Valid() && (data == old(data) || fresh(data))
      ensures ok <==> index < old(size)
      ensures Contents() == ListStep(old(Contents()), Op.Erase(index))
      ensures Numbers() == ShapeStep<T>(old(Numbers()), Op.Erase(index))
    {
      if index >= size {
        return false;
      }
      MoveLeft(index);
      size := size - 1;
      assert Contents() == data[..index] + data[index..size];
      if size == capacity / 4 {
        AdjustCapacity();
      }
      return true;
    }

    /** `vector_resize`: elements gained are whatever the buffer holds. */
    method Resize(newSize: nat)
      requires Valid()
      modifies this
      ensures Valid() && (data == old(data) || fresh(data)) && size == newSize
      ensures newSize <= old(size) ==> Contents() == old(Contents())[..newSize]
      ensures newSize > old(size) ==> Contents()[..old(size)] == old(Contents())
      ensures capacity == if newSize == 0 then 2
                          else if newSize > old(capacity) then 2 * newSize else old(capacity)
    {
      if newSize <= capacity * SHRINK_THRESHOLD {
        size := newSize;
        Reallocate(newSize * GROWTH_FACTOR);
      } else if newSize > capacity {
        Reallocate(newSize * GROWTH_FACTOR);
      }
      size := newSize;
    }

    method Reserve(minimumCapacity: nat)
      requires Valid()
      modifies this
      ensures Valid() && (data == old(data) || fresh(data)) && Contents() == old(Contents())
      ensures capacity == if minimumCapacity > old(capacity) then minimumCapacity else old(capacity)
    {
      if minimumCapacity > capacity {
        Reallocate(minimumCapacity);
      }
    }

    method ShrinkToFit()
      requires Valid()
      modifies this
      ensures Valid() && (data == old(data) || fresh(data)) && Contents() == old(Contents())
      ensures capacity == if size < 2 then 2 else size
    {
      Reallocate(size);
    }

    method Get(index: nat) returns (element: T)
      requires Valid() && index < size
      ensures element == Contents()[index]
    {
      return data[index];
    }
  }

  // ----- runs -----

  /** The calls can be made one after the other: `vector_pop_back` demands an element. */
  ghost predicate Legal<T>(s: seq<T>, ops: seq<Op<T>>)
    decreases |ops|
  {
    ops == [] || ((ops[0].PopBack? ==> s != []) && Legal(ListStep(s, ops[0]), ops[1..]))
  }

  ghost function ListRun<T>(s: seq<T>, ops: seq<Op<T>>): seq<T>
    requires Legal(s, ops)
    decreases |ops|
  {
    if ops == [] then s else ListRun(ListStep(s, ops[0]), ops[1..])
  }

  ghost predicate ShapeOk(s: Shape) {
    MINIMUM_CAPACITY <= s.capacity && s.size <= s.capacity
  }

  ghost function ShapeRun<T>(shape: Shape, s: seq<T>, ops: seq<Op<T>>): Shape
    requires Legal(s, ops) && shape.size == |s|
    decreases |ops|
  {
    if ops == [] then shape
    else
      var next := ListStep(s, ops[0]);
      SizesAgree(shape, s, ops[0]);
      ShapeRun(ShapeStep(shape, ops[0]), next, ops[1..])
  }

  lemma SizesAgree<T>(shape: Shape, s: seq<T>, op: Op<T>)
    requires shape.size == |s| && (op.PopBack? ==> s != [])
    ensures ShapeStep(shape, op).size == |ListStep(s, op)|
  {
  }

  /** A push or an insert grows a vector if and only if it is full, to twice its size. */
  lemma GrowsOnlyWhenFull<T>(s: Shape, x: T, index: nat)
    requires ShapeOk(s) && index <= s.size
    ensures ShapeStep(s, PushBack(x)).capacity == if s.size == s.capacity then 2 * s.size else s.capacity
    ensures ShapeStep(s, Insert(index, x)) == ShapeStep(s, PushBack(x))
  {
  }

  /** A pop changes the capacity if and only if it takes the last element of a vector above the minimum capacity. */
  lemma PopShrinksOnlyAtZero<T>(s: Shape)
    requires ShapeOk(s) && s.size > 0
    ensures ShapeStep<T>(s, PopBack).capacity != s.capacity <==> s.size == 1 && s.capacity > 2
  {
  }

  /** Where the size comes down to a quarter of the capacity, a pop keeps the capacity and an erase shrinks it. */
  lemma PopKeepsWhereEraseShrinks<T>(s: Shape, index: nat)
    requires ShapeOk(s) && s.size > 1 && s.size - 1 == s.capacity / 4 && index < s.size
    ensures ShapeStep<T>(s, PopBack).capacity == s.capacity
    ensures ShapeStep<T>(s, Erase(index)).capacity == 2 * (s.size - 1) < s.capacity
  {
  }

  /** Three elements in a capacity of eight are such a case. */
  lemma PopEraseExample<T>(s: Shape)
    requires s == Shape(3, 8, 0)
    ensures ShapeStep<T>(s, PopBack) == Shape(2, 8, 0) && ShapeStep<T>(s, Erase(0)) == Shape(2, 4, 2)
  {
    PopKeepsWhereEraseShrinks<T>(s, 0);
  }

  /** Twice the distance of the size from half of the capacity, weighted by what the next reallocation there costs. */
  ghost function Potential(s: Shape): int {
    if 2 * s.size >= s.capacity then 2 * (2 * s.size - s.capacity) else s.capacity - 2 * s.size
  }

  /** One call raises twice the number of copied elements, less what the potential pays for, by at most four. */
  lemma StepCost<T>(s: Shape, op: Op<T>)
    requires ShapeOk(s) && (op.PopBack? ==> s.size > 0)
    ensures var t := ShapeStep(s, op);
            ShapeOk(t) && 2 * t.copied + Potential(t) <= 2 * s.copied + Potential(s) + 4
  {
  }

  lemma {:induction false} RunCost<T>(shape: Shape, s: seq<T>, ops: seq<Op<T>>)
    requires Legal(s, ops) && ShapeOk(shape) && shape.size == |s|
    ensures var t := ShapeRun(shape, s, ops);
            && ShapeOk(t) && t.size == |ListRun(s, ops)|
            && 2 * t.copied + Potential(t) <= 2 * shape.copied + Potential(shape) + 4 * |ops|
    decreases |ops|
  {
    if ops != [] {
      StepCost(shape, ops[0]);
      SizesAgree(shape, s, ops[0]);
      RunCost(ShapeStep(shape, ops[0]), ListStep(s, ops[0]), ops[1..]);
    }
  }

  /** From a new vector, any run of `n` pushes, inserts, pops and erases copies at most `2 * n` elements and half of the
      initial capacity; throughout, the capacity holds the elements and is never below the minimum. */
  lemma AmortizedReallocation<T>(initial: nat, ops: seq<Op<T>>)
    requires Legal([], ops)
    ensures var capacity := if initial < 2 then 2 else initial;
            var t := ShapeRun(Shape(0, capacity, 0), [], ops);
            ShapeOk(t) && t.size == |ListRun([], ops)| && 2 * t.copied <= 4 * |ops| + capacity
  {
    RunCost(Shape(0, if initial < 2 then 2 else initial, 0), [], ops);
  }
}
