/** One record of the violation log, and the append protocol of src/logger/logger.c. */
module Logger {
  import opened AssocLists
  import opened Bytes
  import JsonLaws
  import opened JsonObjects
  import JsonParser
  import JsonSerializer
  import opened JsonText
  import opened JsonTrees
  import opened LogFormat
  import opened Options
  import opened Strings
  import opened Utf8

  type u64 = x: int | 0 <= x < 0x1_0000_0000_0000_0000

  /** What the observer found out about one forbidden system call. */
  datatype Violation = Violation(
    pid: int, timestamp: Option<CString>, syscall: u64, syscallName: Option<CString>,
    rdi: u64, rsi: u64, rdx: u64, r10: u64, r8: u64, r9: u64, rbp: u64, rip: u64,
    resolvedFunc: Option<CString>, resolvedFile: Option<CString>)

  /** A string literal of the program. */
  function Ascii(text: string): CString {
    seq(|text|, i requires 0 <= i < |text| => if 0 < text[i] as int < 128 then text[i] as int else '?' as int)
  }

  // ----- registers as text -----

  function HexDigits(n: nat): (t: seq<byte>)
    ensures |t| > 0 && forall k :: 0 <= k < |t| ==> HexValue(t[k]) >= 0 && 0 < t[k] < 128
  {
    if n < 16 then [HexDigit(n)] else HexDigits(n / 16) + [HexDigit(n % 16)]
  }

  /** `snprintf` with "0x%llx" */
  function RegisterText(n: nat): (t: CString)
    ensures forall k :: 0 <= k < |t| ==> t[k] < 128
  {
    ['0' as int, 'x' as int] + HexDigits(n)
  }

  ghost function HexNumber(digits: seq<byte>): int {
    if digits == [] then 0 else HexNumber(digits[..|digits| - 1]) * 16 + HexValue(digits[|digits| - 1])
  }

  lemma {:induction false} HexDigitsValue(n: nat)
    ensures HexNumber(HexDigits(n)) == n
  {
    if n >= 16 {
      HexDigitsValue(n / 16);
      assert HexDigits(n)[..|HexDigits(n)| - 1] == HexDigits(n / 16);
    }
  }

  lemma {:induction false} HexDigitsShort(n: nat, count: nat)
    requires 0 < count && n < HexRange(count)
    ensures |HexDigits(n)| <= count
    decreases count
  {
    if n >= 16 {
      HexDigitsShort(n / 16, count - 1);
    }
  }

  function HexRange(count: nat): nat {
    if count == 0 then 1 else 16 * HexRange(count - 1)
  }

  /** The 32-byte buffer of `write_hex_register` holds every register, and the text names the register's value. */
  lemma RegisterTextComplete(value: u64)
    ensures |RegisterText(value)| + 1 <= 32
    ensures RegisterText(value)[..2] == Ascii("0x") && HexNumber(RegisterText(value)[2..]) == value
  {
    assert HexRange(16) == 0x1_0000_0000_0000_0000 by {
      assert HexRange(4) == 0x1_0000;
      assert HexRange(8) == 0x1_0000_0000;
      assert HexRange(12) == 0x1_0000_0000_0000;
    }
    HexDigitsShort(value, 16);
    HexDigitsValue(value);
    assert RegisterText(value)[2..] == HexDigits(value);
  }

  // ----- the fields of a record -----

  /** A name and the value it gets, if it gets one. */
  datatype Slot = Slot(name: CString, value: Option<Json>)

  /** The members that the filled slots make, in order. */
  ghost function Present(slots: seq<Slot>): seq<Member<Json>> {
    if slots == [] then []
    else
      var last := slots[|slots| - 1];
      Present(slots[..|slots| - 1]) + if last.value.Some? then [Member(last.name, last.value.value)] else []
  }

  ghost predicate Named(slots: seq<Slot>) {
    forall i, j :: 0 <= i < j < |slots| ==> slots[i].name != slots[j].name
  }

  lemma {:induction false} SlotIsNew(slots: seq<Slot>, n: nat, name: CString)
    requires n <= |slots| && forall i :: 0 <= i < n ==> slots[i].name != name
    ensures !HasKey(Present(slots[..n]), name)
  {
    if n > 0 {
      SlotIsNew(slots, n - 1, name);
      assert slots[..n][..n - 1] == slots[..n - 1];
      AppendAbsent(Present(slots[..n - 1]), Present(slots[..n]), slots[n - 1], name);
    }
  }

  lemma AppendAbsent(ms: seq<Member<Json>>, next: seq<Member<Json>>, slot: Slot, name: CString)
    requires !HasKey(ms, name) && slot.name != name
    requires next == ms + if slot.value.Some? then [Member(slot.name, slot.value.value)] else []
    ensures !HasKey(next, name)
  {
    HasKeyMeans(ms, name);
    HasKeyMeans(next, name);
  }

  /** Filling slot `n` after the slots before it. */
  lemma PresentNext(slots: seq<Slot>, n: nat)
    requires Named(slots) && n < |slots|
    ensures var ms, slot := Present(slots[..n]), slots[n];
            Present(slots[..n + 1]) == if slot.value.Some? then Set(ms, slot.name, slot.value.value) else ms
  {
    assert slots[..n + 1][..n] == slots[..n];
    SlotIsNew(slots, n, slots[n].name);
  }

  lemma {:induction false} PresentDistinct(slots: seq<Slot>, n: nat)
    requires Named(slots) && n <= |slots|
    ensures DistinctKeys(Present(slots[..n]))
  {
    if n > 0 {
      PresentDistinct(slots, n - 1);
      SlotIsNew(slots, n - 1, slots[n - 1].name);
      PresentNext(slots, n - 1);
    }
  }

  /** Looking up a slot's name in the object gives the slot's value. */
  lemma {:induction false} PresentLookup(slots: seq<Slot>, n: nat, i: nat)
    requires Named(slots) && i < n <= |slots|
    ensures Lookup(Present(slots[..n]), slots[i].name) == slots[i].value
  {
    var last := slots[n - 1];
    PresentNext(slots, n - 1);
    SlotIsNew(slots, n - 1, last.name);
    if last.value.Some? {
      SetLookup(Present(slots[..n - 1]), last.name, last.value.value, slots[i].name);
    }
    if i < n - 1 {
      PresentLookup(slots, n - 1, i);
    }
  }

  /** A value that prints and reads back, and how deep it may go. */
  ghost predicate Readable(lib: Libc, v: Json, height: nat) {
    Valid(v) && NumbersReadBack(lib, v) && Height(v) <= height
  }

  ghost predicate SlotReadable(lib: Libc, slot: Slot, height: nat) {
    slot.value.Some? ==> Readable(lib, slot.value.value, height)
  }

  lemma {:induction false} PresentReadable(lib: Libc, slots: seq<Slot>, n: nat, height: nat)
    requires n <= |slots| && forall i :: 0 <= i < n ==> SlotReadable(lib, slots[i], height)
    ensures forall k :: 0 <= k < |Present(slots[..n])| ==> Readable(lib, Present(slots[..n])[k].value, height)
  {
    if n > 0 {
      assert SlotReadable(lib, slots[n - 1], height);
      PresentReadable(lib, slots, n - 1, height);
      assert slots[..n][..n - 1] == slots[..n - 1];
    }
  }

  lemma {:induction false} MembersHeightBound(ms: seq<Member<Json>>, height: nat)
    requires forall k :: 0 <= k < |ms| ==> Height(ms[k].value) <= height
    ensures MembersHeight(ms) <= height + 1
    decreases |ms|
  {
    if ms != [] {
      MembersHeightBound(ms[1..], height);
    }
  }

  lemma SlotsReadable(lib: Libc, slots: seq<Slot>, height: nat)
    requires Named(slots) && forall i :: 0 <= i < |slots| ==> SlotReadable(lib, slots[i], height)
    ensures Readable(lib, Object(Present(slots)), height + 1)
  {
    var n := |slots|;
    assert slots[..n] == slots;
    PresentReadable(lib, slots, n, height);
    PresentDistinct(slots, n);
    var ms := Present(slots);
    assert forall k :: 0 <= k < |ms| ==> Readable(lib, ms[k].value, height);
    MembersHeightBound(ms, height);
  }

  /** `json_value_init_string`: only well-formed UTF-8 makes a value. */
  ghost function TextValue(s: Option<CString>): Option<Json> {
    if s.Some? && WellFormed(s.value) then Some(Str(s.value)) else None
  }

  function RegisterNames(): (names: seq<CString>)
    ensures |names| == 8
  {
    [Ascii("rdi"), Ascii("rsi"), Ascii("rdx"), Ascii("r10"), Ascii("r8"), Ascii("r9"), Ascii("rbp"), Ascii("rip")]
  }

  function RegisterValues(v: Violation): (values: seq<u64>)
    ensures |values| == 8
  {
    [v.rdi, v.rsi, v.rdx, v.r10, v.r8, v.r9, v.rbp, v.rip]
  }

  ghost function RegisterSlots(v: Violation): seq<Slot> {
    seq(8, i requires 0 <= i < 8 => Slot(RegisterNames()[i], TextValue(Some(RegisterText(RegisterValues(v)[i])))))
  }

  function RecordNames(): (names: seq<CString>)
    ensures |names| == 7
  {
    [Ascii("pid"), Ascii("timestamp"), Ascii("syscall"), Ascii("syscall_name"), Ascii("registers"), Ascii("function"),
     Ascii("file")]
  }

  ghost function RecordSlots(toDouble: u64 -> real, v: Violation): seq<Slot> {
    var names := RecordNames();
    [ Slot(names[0], Some(Number(v.pid as real))),
      Slot(names[1], TextValue(v.timestamp)),
      Slot(names[2], Some(Number(toDouble(v.syscall)))),
      Slot(names[3], TextValue(v.syscallName)),
      Slot(names[4], Some(Object(Present(RegisterSlots(v))))),
      Slot(names[5], TextValue(v.resolvedFunc)),
      Slot(names[6], TextValue(v.resolvedFile)) ]
  }

  ghost function Record(toDouble: u64 -> real, v: Violation): Json {
    Object(Present(RecordSlots(toDouble, v)))
  }

  lemma RegistersNamed(v: Violation)
    ensures Named(RegisterSlots(v))
  {
    RegisterNamesDiffer();
  }

  lemma RegisterNamesDiffer()
    ensures forall i, j :: 0 <= i < j < 8 ==> RegisterNames()[i] != RegisterNames()[j]
  {
    var r8, r9 := Ascii("r8"), Ascii("r9");
    assert |r8| == |r9| == 2 && r8[1] != r9[1];
    var rdi, rsi, rdx := Ascii("rdi"), Ascii("rsi"), Ascii("rdx");
    var r10, rbp, rip := Ascii("r10"), Ascii("rbp"), Ascii("rip");
    assert |rdi| == |rsi| == |rdx| == |r10| == |rbp| == |rip| == 3;
    assert rdi[1] == rdx[1] == 'd' as int && rdi[2] != rdx[2];
    assert rsi[1] == 's' as int && r10[1] == '1' as int && rbp[1] == 'b' as int && rip[1] == 'i' as int;
  }

  lemma RecordNamed(toDouble: u64 -> real, v: Violation)
    ensures Named(RecordSlots(toDouble, v))
  {
    RecordNamesDiffer();
    var slots := RecordSlots(toDouble, v);
    assert forall i :: 0 <= i < 7 ==> slots[i].name == RecordNames()[i];
  }

  lemma RecordNamesDiffer()
    ensures forall i, j :: 0 <= i < j < 7 ==> RecordNames()[i] != RecordNames()[j]
  {
    var pid, timestamp, syscall, name := Ascii("pid"), Ascii("timestamp"), Ascii("syscall"), Ascii("syscall_name");
    var registers, function_, file := Ascii("registers"), Ascii("function"), Ascii("file");
    assert |pid| == 3 && |timestamp| == |registers| == 9 && |syscall| == 7 && |name| == 12;
    assert |function_| == 8 && |file| == 4 && timestamp[0] != registers[0];
  }

  /** The two numbers of a record survive printing and reading. */
  ghost predicate NumbersSurvive(lib: Libc, toDouble: u64 -> real, v: Violation) {
    ReadsBack(lib, v.pid as real) && ReadsBack(lib, toDouble(v.syscall))
  }

  lemma TextReadable(lib: Libc, name: CString, s: Option<CString>, height: nat)
    ensures SlotReadable(lib, Slot(name, TextValue(s)), height)
  {
  }

  lemma NumberReadable(lib: Libc, name: CString, x: real, height: nat)
    requires ReadsBack(lib, x)
    ensures SlotReadable(lib, Slot(name, Some(Number(x))), height)
  {
  }

  lemma RegistersReadable(lib: Libc, v: Violation)
    ensures Readable(lib, Object(Present(RegisterSlots(v))), 1)
  {
    var slots := RegisterSlots(v);
    forall i | 0 <= i < 8 ensures SlotReadable(lib, slots[i], 0) {
      TextReadable(lib, slots[i].name, Some(RegisterText(RegisterValues(v)[i])), 0);
    }
    RegistersNamed(v);
    SlotsReadable(lib, slots, 0);
  }

  lemma SevenReadable(lib: Libc, slots: seq<Slot>, height: nat)
    requires |slots| == 7 && Named(slots)
    requires SlotReadable(lib, slots[0], height) && SlotReadable(lib, slots[1], height)
    requires SlotReadable(lib, slots[2], height) && SlotReadable(lib, slots[3], height)
    requires SlotReadable(lib, slots[4], height) && SlotReadable(lib, slots[5], height)
    requires SlotReadable(lib, slots[6], height)
    ensures Readable(lib, Object(Present(slots)), height + 1)
  {
    forall i | 0 <= i < 7 ensures SlotReadable(lib, slots[i], height) {
    }
    SlotsReadable(lib, slots, height);
  }

  lemma RecordReadable(lib: Libc, toDouble: u64 -> real, v: Violation)
    requires NumbersSurvive(lib, toDouble, v)
    ensures Readable(lib, Record(toDouble, v), 2)
  {
    var slots, names := RecordSlots(toDouble, v), RecordNames();
    NumberReadable(lib, names[0], v.pid as real, 1);
    TextReadable(lib, names[1], v.timestamp, 1);
    NumberReadable(lib, names[2], toDouble(v.syscall), 1);
    TextReadable(lib, names[3], v.syscallName, 1);
    RegistersReadable(lib, v);
    assert SlotReadable(lib, slots[4], 1);
    TextReadable(lib, names[5], v.resolvedFunc, 1);
    TextReadable(lib, names[6], v.resolvedFile, 1);
    RecordNamed(toDouble, v);
    SevenReadable(lib, slots, 1);
  }

  /** A record answers for each of its names with what was put there, and for a field that was left out with nothing. */
  lemma RecordAnswers(toDouble: u64 -> real, v: Violation, i: nat)
    requires i < 7
    ensures Lookup(Record(toDouble, v).members, RecordNames()[i]) == RecordSlots(toDouble, v)[i].value
  {
    var slots := RecordSlots(toDouble, v);
    RecordNamed(toDouble, v);
    PresentLookup(slots, 7, i);
    assert slots[..7] == slots && slots[i].name == RecordNames()[i];
  }

  /** Each register is found under its name, as the text of its value. */
  lemma RegistersAnswer(v: Violation, i: nat)
    requires i < 8
    ensures Lookup(Present(RegisterSlots(v)), RegisterNames()[i]) == Some(Str(RegisterText(RegisterValues(v)[i])))
  {
    var slots := RegisterSlots(v);
    RegistersNamed(v);
    PresentLookup(slots, 8, i);
    AsciiWellFormed(RegisterText(RegisterValues(v)[i]));
    assert slots[..8] == slots;
  }

  // ----- building a record -----

  /** `json_object_set_string`: text that is not UTF-8 is refused and leaves the object as it was. */
  method SetString(obj: JsonObject<Json>, name: CString, s: CString) returns (ok: bool)
    requires obj.Valid()
    modifies obj.Repr
    ensures obj.Valid() && fresh(obj.Repr - old(obj.Repr))
    ensures ok <==> WellFormed(s)
    ensures obj.Members() == if ok then Set(old(obj.Members()), name, Str(s)) else old(obj.Members())
  {
    var t := s + [0];
    assert t[..|s|] == s;
    NothingCut(t, |s|);
    ok := IsValidUtf8(t, |s|);
    if ok {
      ok := obj.SetValue(name, Str(s));
    }
  }

  /** A field that is set only if its text is there. */
  method PutString(obj: JsonObject<Json>, ghost slots: seq<Slot>, ghost n: nat, name: CString, s: Option<CString>)
    requires obj.Valid() && Named(slots) && n < |slots|
    requires slots[n] == Slot(name, TextValue(s)) && obj.Members() == Present(slots[..n])
    modifies obj.Repr
    ensures obj.Valid() && fresh(obj.Repr - old(obj.Repr)) && obj.Members() == Present(slots[..n + 1])
  {
    PresentNext(slots, n);
    if s.Some? {
      var ok := SetString(obj, name, s.value);
    }
  }

  method PutValue(obj: JsonObject<Json>, ghost slots: seq<Slot>, ghost n: nat, name: CString, value: Json)
    requires obj.Valid() && Named(slots) && n < |slots|
    requires slots[n] == Slot(name, Some(value)) && obj.Members() == Present(slots[..n])
    modifies obj.Repr
    ensures obj.Valid() && fresh(obj.Repr - old(obj.Repr)) && obj.Members() == Present(slots[..n + 1])
  {
    PresentNext(slots, n);
    var ok := obj.SetValue(name, value);
  }

  /** The eight `write_hex_register` calls, one after the other. */
  method BuildRegisters(hash: CString -> nat, v: Violation) returns (regs: Json)
    ensures regs == Object(Present(RegisterSlots(v)))
  {
    ghost var slots := RegisterSlots(v);
    RegistersNamed(v);
    assert slots[..0] == [] && slots[..8] == slots;
    var names, values := RegisterNames(), RegisterValues(v);
    var obj := new JsonObject<Json>(hash, 0);
    for i := 0 to 8
      invariant obj.Valid() && fresh(obj.Repr) && obj.Members() == Present(slots[..i])
    {
      PutString(obj, slots, i, names[i], Some(RegisterText(values[i])));
    }
    var members := JsonParser.MembersOf(obj);
    return Object(members);
  }

  /** Fields 0 and 1: `pid` and `timestamp`. */
  method PutPidAndTime(obj: JsonObject<Json>, ghost slots: seq<Slot>, names: seq<CString>, v: Violation)
    requires obj.Valid() && Named(slots) && |slots| == |names| == 7 && obj.Members() == Present(slots[..0])
    requires slots[0] == Slot(names[0], Some(Number(v.pid as real)))
              && slots[1] == Slot(names[1], TextValue(v.timestamp))
    modifies obj.Repr
    ensures obj.Valid() && fresh(obj.Repr - old(obj.Repr)) && obj.Members() == Present(slots[..2])
  {
    PutValue(obj, slots, 0, names[0], Number(v.pid as real));
    PutString(obj, slots, 1, names[1], v.timestamp);
  }

  /** Fields 2 and 3: `syscall` and `syscall_name`. */
  method PutSyscall(obj: JsonObject<Json>, ghost slots: seq<Slot>, names: seq<CString>, number: real, v: Violation)
    requires obj.Valid() && Named(slots) && |slots| == |names| == 7 && obj.Members() == Present(slots[..2])
    requires slots[2] == Slot(names[2], Some(Number(number))) && slots[3] == Slot(names[3], TextValue(v.syscallName))
    modifies obj.Repr
    ensures obj.Valid() && fresh(obj.Repr - old(obj.Repr)) && obj.Members() == Present(slots[..4])
  {
    PutValue(obj, slots, 2, names[2], Number(number));
    PutString(obj, slots, 3, names[3], v.syscallName);
  }

  /** Fields 5 and 6: `function` and `file`. */
  method PutPlace(obj: JsonObject<Json>, ghost slots: seq<Slot>, names: seq<CString>, v: Violation)
    requires obj.Valid() && Named(slots) && |slots| == |names| == 7 && obj.Members() == Present(slots[..5])
    requires slots[5] == Slot(names[5], TextValue(v.resolvedFunc))
              && slots[6] == Slot(names[6], TextValue(v.resolvedFile))
    modifies obj.Repr
    ensures obj.Valid() && fresh(obj.Repr - old(obj.Repr)) && obj.Members() == Present(slots[..7])
  {
    PutString(obj, slots, 5, names[5], v.resolvedFunc);
    PutString(obj, slots, 6, names[6], v.resolvedFile);
  }

  /** The first four fields. */
  method PutHead(obj: JsonObject<Json>, ghost slots: seq<Slot>, names: seq<CString>, number: real, v: Violation)
    requires obj.Valid() && Named(slots) && |slots| == |names| == 7 && obj.Members() == Present(slots[..0])
    requires slots[0] == Slot(names[0], Some(Number(v.pid as real)))
              && slots[1] == Slot(names[1], TextValue(v.timestamp))
    requires slots[2] == Slot(names[2], Some(Number(number))) && slots[3] == Slot(names[3], TextValue(v.syscallName))
    modifies obj.Repr
    ensures obj.Valid() && fresh(obj.Repr - old(obj.Repr)) && obj.Members() == Present(slots[..4])
  {
    PutPidAndTime(obj, slots, names, v);
    PutSyscall(obj, slots, names, number, v);
  }

  /** The last three: `registers`, `function` and `file`. */
  method PutTail(obj: JsonObject<Json>, ghost slots: seq<Slot>, names: seq<CString>, regs: Json, v: Violation)
    requires obj.Valid() && Named(slots) && |slots| == |names| == 7 && obj.Members() == Present(slots[..4])
    requires slots[4] == Slot(names[4], Some(regs)) && slots[5] == Slot(names[5], TextValue(v.resolvedFunc))
              && slots[6] == Slot(names[6], TextValue(v.resolvedFile))
    modifies obj.Repr
    ensures obj.Valid() && obj.Members() == Present(slots[..7])
  {
    PutValue(obj, slots, 4, names[4], regs);
    PutPlace(obj, slots, names, v);
  }

  method PutFields(obj: JsonObject<Json>, ghost slots: seq<Slot>, names: seq<CString>, number: real, regs: Json,
                   v: Violation)
    requires obj.Valid() && Named(slots) && |slots| == |names| == 7 && obj.Members() == Present(slots[..0])
    requires slots[0] == Slot(names[0], Some(Number(v.pid as real)))
              && slots[1] == Slot(names[1], TextValue(v.timestamp))
    requires slots[2] == Slot(names[2], Some(Number(number))) && slots[3] == Slot(names[3], TextValue(v.syscallName))
    requires slots[4] == Slot(names[4], Some(regs)) && slots[5] == Slot(names[5], TextValue(v.resolvedFunc))
              && slots[6] == Slot(names[6], TextValue(v.resolvedFile))
    modifies obj.Repr
    ensures obj.Valid() && obj.Members() == Present(slots[..7])
  {
    PutHead(obj, slots, names, number, v);
    PutTail(obj, slots, names, regs, v);
  }

  method BuildRecord(hash: CString -> nat, toDouble: u64 -> real, v: Violation) returns (root: Json)
    ensures root == Record(toDouble, v)
  {
    ghost var slots := RecordSlots(toDouble, v);
    RecordNamed(toDouble, v);
    assert slots[..0] == [] && slots[..7] == slots;
    var regs := BuildRegisters(hash, v);
    var obj := new JsonObject<Json>(hash, 0);
    PutFields(obj, slots, RecordNames(), toDouble(v.syscall), regs, v);
    var members := JsonParser.MembersOf(obj);
    return Object(members);
  }

  // ----- the file -----

  /** A file that is only ever opened for appending. */
  class LogFile {
    var contents: seq<byte>

    constructor (contents: seq<byte>)
      ensures this.contents == contents
    {
      this.contents := contents;
    }

    method Fputc(c: byte)
      modifies this
      ensures contents == old(contents) + [c]
    {
      contents := contents + [c];
    }

    method Fputs(s: CString)
      modifies this
      ensures contents == old(contents) + s
    {
      contents := contents + s;
    }
  }

  function Appended(done: bool, text: seq<byte>): seq<byte> {
    if done then text else []
  }

  /** The style of the log: pretty, with the default escaping of slashes. */
  const LOG_STYLE := Style(true, true)

  ghost function RecordText(lib: Libc, toDouble: u64 -> real, v: Violation): seq<byte> {
    Print(lib, LOG_STYLE, Record(toDouble, v), 0)
  }

  /** The pretty text of a record, as a C string. */
  method RecordString(hash: CString -> nat, lib: Libc, toDouble: u64 -> real, v: Violation) returns (text: CString)
    ensures text == RecordText(lib, toDouble, v)
  {
    var root := BuildRecord(hash, toDouble, v);
    var serialized := JsonSerializer.SerializeToString(lib, LOG_STYLE, root);
    JsonLaws.PrintIsCString(lib, LOG_STYLE, root, 0);
    text := serialized[..serialized.Length - 1];
  }

  /** The three writes to the opened file. */
  method AppendEntry(file: LogFile, firstInArray: bool, text: CString)
    modifies file
    ensures file.contents == old(file.contents) + Entry(firstInArray, text)
  {
    ghost var lead := if firstInArray then OPEN_BRACKET else COMMA;
    if firstInArray {
      file.Fputc(OPEN_BRACKET);
    } else {
      file.Fputc(COMMA);
    }
    file.Fputs(text);
    file.Fputc(NEWLINE);
    Regroup(old(file.contents), [lead] + text, [NEWLINE]);
    Regroup(old(file.contents), [lead], text);
  }

  /** `log_seccomp_violation`: appends one entry and clears the flag, or fails and changes neither. */
  method LogSeccompViolation(hash: CString -> nat, lib: Libc, toDouble: u64 -> real, file: LogFile?, v: Violation,
                             opens: bool, firstInArray: bool) returns (status: int, stillFirst: bool)
    modifies file
    ensures status == if file != null && opens then 0 else -1
    ensures stillFirst == (firstInArray && status != 0)
    ensures file != null ==>
              file.contents == old(file.contents)
                               + Appended(status == 0, Entry(firstInArray, RecordText(lib, toDouble, v)))
  {
    if file == null {
      return -1, firstInArray;
    }
    var text := RecordString(hash, lib, toDouble, v);
    if !opens {
      return -1, firstInArray;
    }
    AppendEntry(file, firstInArray, text);
    return 0, false;
  }

  /** `logger_close` */
  method LoggerClose(file: LogFile?, opens: bool) returns (status: int)
    modifies file
    ensures status == if file != null && opens then 0 else -1
    ensures file != null ==> file.contents == old(file.contents) + Appended(status == 0, [CLOSE_BRACKET, NEWLINE])
  {
    if file == null || !opens {
      return -1;
    }
    file.Fputc(CLOSE_BRACKET);
    file.Fputc(NEWLINE);
    return 0;
  }
}
