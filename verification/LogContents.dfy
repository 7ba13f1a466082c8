/** What one record, one register and a whole log file of src/logger/logger.c hold, spelled out. */
module LogContents {
  import opened AssocLists
  import opened Bytes
  import opened JsonLayout
  import opened JsonSyntax
  import opened JsonText
  import opened JsonTrees
  import opened LogFormat
  import opened Logger
  import opened Observer
  import opened Options
  import opened Strings
  import opened Utf8

  /** A string literal stands for its characters. */
  lemma LiteralBytes(text: string)
    requires forall i :: 0 <= i < |text| ==> 0 < text[i] as int < 128
    ensures |Ascii(text)| == |text| && forall i :: 0 <= i < |text| ==> Ascii(text)[i] == Char(text[i])
  {
  }

  // ----- a register -----

  function Weighted(digits: seq<nat>): nat {
    if digits == [] then 0 else Weighted(digits[..|digits| - 1]) * 16 + digits[|digits| - 1]
  }

  /** Small hex digits, most significant first. */
  function DigitsText(digits: seq<nat>): seq<byte>
    requires forall k :: 0 <= k < |digits| ==> digits[k] < 16
  {
    seq(|digits|, k requires 0 <= k < |digits| => Char("0123456789abcdef"[digits[k]]))
  }

  /** A register is written as `0x` and its small hex digits, without leading zeros. */
  lemma RegisterSpelled(value: nat) returns (digits: seq<nat>)
    ensures (forall k :: 0 <= k < |digits| ==> digits[k] < 16) && Weighted(digits) == value
    ensures |digits| > 0 && (digits[0] == 0 ==> |digits| == 1)
    ensures RegisterText(value) == [Char('0'), Char('x')] + DigitsText(digits)
  {
    digits := DigitsSpelled(value);
  }

  lemma {:induction false} DigitsSpelled(value: nat) returns (digits: seq<nat>)
    ensures (forall k :: 0 <= k < |digits| ==> digits[k] < 16) && Weighted(digits) == value
    ensures |digits| > 0 && (digits[0] == 0 ==> value == 0 && |digits| == 1)
    ensures HexDigits(value) == DigitsText(digits)
  {
    if value < 16 {
      digits := [value];
      assert digits[..0] == [] && Weighted([]) == 0;
    } else {
      var front := DigitsSpelled(value / 16);
      digits := front + [value % 16];
      OneMoreDigit(front, value % 16, value / 16, value);
    }
  }

  lemma OneMoreDigit(front: seq<nat>, last: nat, upper: nat, value: nat)
    requires (forall k :: 0 <= k < |front| ==> front[k] < 16) && last < 16 && Weighted(front) == upper
    requires value == 16 * upper + last && upper > 0
    ensures Weighted(front + [last]) == value
    ensures HexDigits(upper) == DigitsText(front) ==> HexDigits(value) == DigitsText(front + [last])
  {
    assert (front + [last])[..|front|] == front;
    assert value / 16 == upper && value % 16 == last;
    assert DigitsText(front + [last]) == DigitsText(front) + [HexDigit(last)];
  }

  // ----- a record -----

  /** A member that is there if it has a value. */
  function One(name: string, value: Option<Json>): seq<Member<Json>> {
    if value.Some? then [Member(Ascii(name), value.value)] else []
  }

  /** A text that is there and well-formed UTF-8 (RFC 3629). */
  ghost function Text(s: Option<CString>): Option<Json> {
    if s.Some? && WellFormed(s.value) then Some(Str(s.value)) else None
  }

  function Register(name: string, value: u64): Member<Json> {
    Member(Ascii(name), Str(RegisterText(value)))
  }

  /** The eight registers, in this order. */
  function Registers(v: Violation): seq<Member<Json>> {
    [ Register("rdi", v.rdi), Register("rsi", v.rsi), Register("rdx", v.rdx), Register("r10", v.r10),
      Register("r8", v.r8), Register("r9", v.r9), Register("rbp", v.rbp), Register("rip", v.rip) ]
  }

  function Filled(slot: Slot): seq<Member<Json>> {
    if slot.value.Some? then [Member(slot.name, slot.value.value)] else []
  }

  lemma PresentStep(slots: seq<Slot>, n: nat)
    requires n < |slots|
    ensures Present(slots[..n + 1]) == Present(slots[..n]) + Filled(slots[n])
  {
    assert slots[..n + 1][..n] == slots[..n];
  }

  lemma {:induction false} PresentAll(slots: seq<Slot>, n: nat)
    requires n <= |slots| && forall i :: 0 <= i < n ==> slots[i].value.Some?
    ensures |Present(slots[..n])| == n
    ensures forall i :: 0 <= i < n ==> Present(slots[..n])[i] == Member(slots[i].name, slots[i].value.value)
  {
    if n > 0 {
      PresentAll(slots, n - 1);
      PresentStep(slots, n - 1);
    }
  }

  lemma RegisterSlot(v: Violation, i: nat, name: string, value: u64)
    requires i < 8 && RegisterNames()[i] == Ascii(name) && RegisterValues(v)[i] == value
    ensures RegisterSlots(v)[i].value.Some?
    ensures Member(RegisterSlots(v)[i].name, RegisterSlots(v)[i].value.value) == Register(name, value)
  {
    AsciiWellFormed(RegisterText(value));
  }

  /** The member `registers` of a record holds the registers under their names, in order. */
  lemma RegisterMembers(v: Violation)
    ensures Present(RegisterSlots(v)) == Registers(v)
  {
    var slots := RegisterSlots(v);
    RegisterSlot(v, 0, "rdi", v.rdi);
    RegisterSlot(v, 1, "rsi", v.rsi);
    RegisterSlot(v, 2, "rdx", v.rdx);
    RegisterSlot(v, 3, "r10", v.r10);
    RegisterSlot(v, 4, "r8", v.r8);
    RegisterSlot(v, 5, "r9", v.r9);
    RegisterSlot(v, 6, "rbp", v.rbp);
    RegisterSlot(v, 7, "rip", v.rip);
    assert slots[..8] == slots;
    PresentAll(slots, 8);
  }

  lemma OnePresent(slots: seq<Slot>, first: seq<Member<Json>>)
    requires |slots| >= 1 && first == Filled(slots[0])
    ensures Present(slots[..1]) == first
  {
    PresentStep(slots, 0);
    assert slots[..0] == [] && [] + first == first;
  }

  lemma FourPresent(slots: seq<Slot>)
    requires |slots| >= 4
    ensures Present(slots[..4]) == Filled(slots[0]) + Filled(slots[1]) + Filled(slots[2]) + Filled(slots[3])
  {
    OnePresent(slots, Filled(slots[0]));
    PresentStep(slots, 1);
    PresentStep(slots, 2);
    PresentStep(slots, 3);
  }

  lemma SevenPresent(slots: seq<Slot>)
    requires |slots| == 7
    ensures Present(slots)
            == Filled(slots[0]) + Filled(slots[1]) + Filled(slots[2]) + Filled(slots[3]) + Filled(slots[4])
               + Filled(slots[5]) + Filled(slots[6])
  {
    FourPresent(slots);
    PresentStep(slots, 4);
    PresentStep(slots, 5);
    PresentStep(slots, 6);
    assert slots[..7] == slots;
  }

  /** The members of a record, in this order; a text that is missing or malformed leaves its member out. */
  lemma RecordMembers(toDouble: u64 -> real, v: Violation)
    ensures Record(toDouble, v)
            == Object(One("pid", Some(Number(v.pid as real))) + One("timestamp", Text(v.timestamp))
                      + One("syscall", Some(Number(toDouble(v.syscall)))) + One("syscall_name", Text(v.syscallName))
                      + One("registers", Some(Object(Registers(v)))) + One("function", Text(v.resolvedFunc))
                      + One("file", Text(v.resolvedFile)))
  {
    RegisterMembers(v);
    SevenPresent(RecordSlots(toDouble, v));
  }

  /** What a record answers for each name. */
  lemma RecordLookups(toDouble: u64 -> real, v: Violation, ms: seq<Member<Json>>)
    requires ms == Record(toDouble, v).members
    ensures Lookup(ms, Ascii("pid")) == Some(Number(v.pid as real))
    ensures Lookup(ms, Ascii("timestamp")) == Text(v.timestamp)
    ensures Lookup(ms, Ascii("syscall")) == Some(Number(toDouble(v.syscall)))
    ensures Lookup(ms, Ascii("syscall_name")) == Text(v.syscallName)
    ensures Lookup(ms, Ascii("registers")) == Some(Object(Registers(v)))
    ensures Lookup(ms, Ascii("function")) == Text(v.resolvedFunc)
    ensures Lookup(ms, Ascii("file")) == Text(v.resolvedFile)
  {
    RegisterMembers(v);
    RecordAnswers(toDouble, v, 0);
    RecordAnswers(toDouble, v, 1);
    RecordAnswers(toDouble, v, 2);
    RecordAnswers(toDouble, v, 3);
    RecordAnswers(toDouble, v, 4);
    RecordAnswers(toDouble, v, 5);
    RecordAnswers(toDouble, v, 6);
  }

  /** What the object of registers answers for each name. */
  lemma RegisterLookups(v: Violation, ms: seq<Member<Json>>)
    requires ms == Registers(v)
    ensures Lookup(ms, Ascii("rdi")) == Some(Str(RegisterText(v.rdi)))
    ensures Lookup(ms, Ascii("rsi")) == Some(Str(RegisterText(v.rsi)))
    ensures Lookup(ms, Ascii("rdx")) == Some(Str(RegisterText(v.rdx)))
    ensures Lookup(ms, Ascii("r10")) == Some(Str(RegisterText(v.r10)))
    ensures Lookup(ms, Ascii("r8")) == Some(Str(RegisterText(v.r8)))
    ensures Lookup(ms, Ascii("r9")) == Some(Str(RegisterText(v.r9)))
    ensures Lookup(ms, Ascii("rbp")) == Some(Str(RegisterText(v.rbp)))
    ensures Lookup(ms, Ascii("rip")) == Some(Str(RegisterText(v.rip)))
  {
    RegisterMembers(v);
    RegistersAnswer(v, 0);
    RegistersAnswer(v, 1);
    RegistersAnswer(v, 2);
    RegistersAnswer(v, 3);
    RegistersAnswer(v, 4);
    RegistersAnswer(v, 5);
    RegistersAnswer(v, 6);
    RegistersAnswer(v, 7);
  }

  // ----- the file -----

  /** Each text with a line end behind it. */
  function Lines(texts: seq<seq<byte>>): seq<seq<byte>> {
    seq(|texts|, k requires 0 <= k < |texts| => texts[k] + [Char('\n')])
  }

  /** A bracket, and lines with a comma between any two of them. */
  function Opened(texts: seq<seq<byte>>): seq<byte> {
    if texts == [] then [] else [Char('[')] + Joined(Lines(texts))
  }

  lemma {:induction false} JoinedNext(texts: seq<seq<byte>>, t: seq<byte>)
    ensures Joined(texts + [t]) == if texts == [] then t else Joined(texts) + ([Char(',')] + t)
    decreases |texts|
  {
    if texts != [] {
      var rest := texts[1..];
      assert (texts + [t])[1..] == rest + [t];
      JoinedNext(rest, t);
      if rest != [] {
        Regroup([Char(',')], Joined(rest), [Char(',')] + t);
        Regroup(texts[0], [Char(',')] + Joined(rest), [Char(',')] + t);
      }
    }
  }

  lemma EntryOpened(texts: seq<seq<byte>>, t: seq<byte>)
    ensures Opened(texts + [t]) == Opened(texts) + Entry(texts == [], t)
  {
    assert Lines(texts + [t]) == Lines(texts) + [t + [Char('\n')]];
    JoinedNext(Lines(texts), t + [Char('\n')]);
    EntrySpelled(texts == [], t);
    if texts != [] {
      Regroup([Char('[')], Joined(Lines(texts)), [Char(',')] + (t + [Char('\n')]));
    }
  }

  lemma EntrySpelled(first: bool, t: seq<byte>)
    ensures Entry(first, t) == [if first then Char('[') else Char(',')] + (t + [Char('\n')])
    ensures first ==> Entry(first, t) == [] + Entry(first, t)
  {
    Regroup([if first then OPEN_BRACKET else COMMA], t, [NEWLINE]);
  }

  lemma {:induction false} LogOpened(texts: seq<seq<byte>>)
    ensures LogText(texts) == Opened(texts)
    decreases |texts|
  {
    if texts != [] {
      var front, last := texts[..|texts| - 1], texts[|texts| - 1];
      LogOpened(front);
      EntryOpened(front, last);
      assert front + [last] == texts;
    }
  }

  /** What a run adds to the file: the pretty text of each logged record on lines of its own, a bracket in front of the
      first, a comma in front of every other, and a line with the closing bracket if the file was closed. */
  lemma RunLaidOut(lib: Libc, toDouble: u64 -> real, stops: seq<Stop>, closeOpens: bool, vs: seq<Violation>,
                   texts: seq<seq<byte>>)
    requires vs == Logged(stops) && |texts| == |vs|
    requires forall k :: 0 <= k < |vs| ==> texts[k] == Pretty(lib, Record(toDouble, vs[k]), 0, true)
    ensures RunText(lib, toDouble, stops, closeOpens)
            == Opened(texts) + if EndOf(stops) == LeftLoop && closeOpens then [Char(']'), Char('\n')] else []
  {
    forall k | 0 <= k < |vs| ensures texts[k] == RecordTexts(lib, toDouble, vs)[k] {
      PrintsPretty(lib, Record(toDouble, vs[k]), 0, true);
    }
    assert texts == RecordTexts(lib, toDouble, vs);
    LogOpened(texts);
  }
}
