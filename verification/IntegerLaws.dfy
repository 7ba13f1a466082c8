/** The main laws once more for trees and records whose numbers are integers, with no assumption on number text left. */
module IntegerLaws {
  import opened Bytes
  import opened CommentExtension
  import opened CommentLaws
  import opened EqualityRange
  import opened Integers
  import opened JsonEquality
  import JsonLaws
  import opened JsonText
  import opened JsonTrees
  import opened Logger
  import opened Observer
  import opened Options

  /** Printing and parsing a tree with integer numbers. */
  lemma IntegralRoundTrip(lib: Libc, st: Style, v: Json, t: seq<byte>, s: seq<byte>)
    requires lib == IntegerLibc() && Valid(v) && Integral(v) && t == Print(lib, st, v, 0) && s == t + [0]
    ensures Terminated(s)
    ensures ParseString(lib, s) == if Height(v) <= MAX_NESTING then Some(Parsed(v, |t|)) else None
  {
    NumbersKnown(lib, v);
    JsonLaws.ParseInvertsPrint(lib, st, v, t, [0], s);
  }

  lemma NumbersKnown(lib: Libc, v: Json)
    requires lib == IntegerLibc() && Integral(v)
    ensures NumbersReadBack(lib, v)
  {
    IntegralReadsBack(v);
  }

  lemma IntegersSurvive(toDouble: u64 -> real, v: Violation)
    requires IsInteger(toDouble(v.syscall))
    ensures NumbersSurvive(IntegerLibc(), toDouble, v)
  {
    IntegersReadBack(v.pid);
    IntegersReadBack(toDouble(v.syscall).Floor);
  }

  lemma AllSurvive(lib: Libc, toDouble: u64 -> real, vs: seq<Violation>)
    requires lib == IntegerLibc() && forall n: u64 :: IsInteger(toDouble(n))
    ensures forall k :: 0 <= k < |vs| ==> NumbersSurvive(lib, toDouble, vs[k])
  {
    forall k | 0 <= k < |vs| ensures NumbersSurvive(lib, toDouble, vs[k]) {
      IntegersSurvive(toDouble, vs[k]);
    }
  }

  /** The log of a whole run, for every conversion to `double` that gives integers. */
  lemma IntegralRunReadsBack(lib: Libc, toDouble: u64 -> real, stops: seq<Stop>, closeOpens: bool, s: seq<byte>)
    requires lib == IntegerLibc() && forall n: u64 :: IsInteger(toDouble(n))
    requires s == RunText(lib, toDouble, stops, closeOpens) + [0]
    ensures Terminated(s)
    ensures match ParseString(lib, s)
            case Some(p) =>
              && p.value == Array(Records(toDouble, Logged(stops))) && p.next + 2 == |s|
              && EndOf(stops) == LeftLoop && closeOpens && Logged(stops) != []
            case None => !(EndOf(stops) == LeftLoop && closeOpens && Logged(stops) != [])
  {
    AllSurvive(lib, toDouble, Logged(stops));
    RunReadsBack(lib, toDouble, stops, closeOpens);
  }

  /** Allowing comments, with decimal integers as the number text. */
  lemma IntegralCommentsExtend(lib: Libc, s: seq<byte>)
    requires lib == IntegerLibc() && Terminated(s) && ParseString(lib, s).Some?
    ensures ParseWithComments(lib, s) == if ByteOrderMark(s) then None else ParseString(lib, s)
  {
    IntegersOrdinary();
    CommentsExtend(lib, s);
  }

  // ----- logged records -----

  ghost predicate SlotIntegral(slot: Slot) {
    slot.value.Some? ==> Integral(slot.value.value)
  }

  lemma {:induction false} PresentIntegral(slots: seq<Slot>, n: nat)
    requires n <= |slots| && forall i :: 0 <= i < n ==> SlotIntegral(slots[i])
    ensures Integral(Object(Present(slots[..n])))
  {
    if n > 0 {
      assert SlotIntegral(slots[n - 1]);
      PresentIntegral(slots, n - 1);
      assert slots[..n][..n - 1] == slots[..n - 1];
    }
  }

  lemma SevenIntegral(slots: seq<Slot>)
    requires |slots| == 7 && SlotIntegral(slots[0]) && SlotIntegral(slots[1]) && SlotIntegral(slots[2])
    requires SlotIntegral(slots[3]) && SlotIntegral(slots[4]) && SlotIntegral(slots[5]) && SlotIntegral(slots[6])
    ensures Integral(Object(Present(slots)))
  {
    assert slots[..7] == slots;
    PresentIntegral(slots, 7);
  }

  lemma RegistersIntegral(v: Violation)
    ensures Integral(Object(Present(RegisterSlots(v))))
  {
    var slots := RegisterSlots(v);
    forall i | 0 <= i < 8 ensures SlotIntegral(slots[i]) {
    }
    assert slots[..8] == slots;
    PresentIntegral(slots, 8);
  }

  lemma TextIntegral(name: CString, s: Option<CString>)
    ensures SlotIntegral(Slot(name, TextValue(s)))
  {
  }

  lemma NumberIntegral(name: CString, x: real)
    requires IsInteger(x)
    ensures SlotIntegral(Slot(name, Some(Number(x))))
  {
  }

  /** A logged record is a valid tree, and its numbers are integers. */
  lemma RecordIntegral(toDouble: u64 -> real, v: Violation)
    requires IsInteger(toDouble(v.syscall))
    ensures Valid(Record(toDouble, v)) && Integral(Record(toDouble, v))
  {
    RecordValid(toDouble, v);
    var slots, names := RecordSlots(toDouble, v), RecordNames();
    NumberIntegral(names[0], v.pid as real);
    TextIntegral(names[1], v.timestamp);
    NumberIntegral(names[2], toDouble(v.syscall));
    TextIntegral(names[3], v.syscallName);
    RegistersIntegral(v);
    assert SlotIntegral(slots[4]);
    TextIntegral(names[5], v.resolvedFunc);
    TextIntegral(names[6], v.resolvedFile);
    SevenIntegral(slots);
  }

  lemma RecordValid(toDouble: u64 -> real, v: Violation)
    requires IsInteger(toDouble(v.syscall))
    ensures Valid(Record(toDouble, v))
  {
    IntegersSurvive(toDouble, v);
    RecordReadable(IntegerLibc(), toDouble, v);
  }

  /** Among logged records equality carries over. */
  lemma RecordsEqualTransitively(toDouble: u64 -> real, v: Violation, w: Violation, b: Json)
    requires Valid(b) && IsInteger(toDouble(v.syscall)) && IsInteger(toDouble(w.syscall))
    requires Equals(Record(toDouble, v), b) && Equals(b, Record(toDouble, w))
    ensures Equals(Record(toDouble, v), Record(toDouble, w))
  {
    RecordIntegral(toDouble, v);
    RecordIntegral(toDouble, w);
    IntegralEquivalence(Record(toDouble, v), b, Record(toDouble, w));
  }
}
