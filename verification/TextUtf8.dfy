/**
 UTF-8 in whole texts: parsing well-formed text gives well-formed names and strings, printing such a
 tree gives well-formed text, and so does a whole log.
 */
module TextUtf8 {
  import opened AssocLists
  import opened Bytes
  import opened JsonRoundTrip
  import opened JsonText
  import opened JsonTrees
  import opened LogFormat
  import opened Logger
  import opened Observer
  import opened Options
  import opened StringLaws
  import opened Strings
  import opened Utf8

  /** All names and strings of the tree are well-formed. */
  ghost predicate WellText(v: Json) {
    match v
    case Str(chars) => WellFormed(chars)
    case Array(items) => forall i :: 0 <= i < |items| ==> WellText(items[i])
    case Object(ms) => forall i :: 0 <= i < |ms| ==> WellFormed(ms[i].key) && WellText(ms[i].value)
    case _ => true
  }

  // ----- parsing -----

  /** Well-formed text can be cut in front of any ASCII byte. */
  lemma {:induction false} CutAtAscii(t: seq<byte>, left: seq<byte>, right: seq<byte>)
    requires WellFormed(t) && t == left + right && right != [] && right[0] < 0x80
    ensures WellFormed(left) && WellFormed(right)
    decreases |left|
  {
    if left == [] {
      AsciiWellFormed([]);
      assert t == right;
    } else {
      var cp, rest := FirstOf(t);
      var e := Encode(cp);
      FirstInside(left, right, cp, rest);
      var others := left[|e|..];
      assert left == e + others;
      Regroup(e, others, right);
      CancelHead(e, rest, others + right);
      CutAtAscii(rest, others, right);
      PutFirst(cp, others);
    }
  }

  lemma CancelHead(e: seq<byte>, x: seq<byte>, y: seq<byte>)
    requires e + x == e + y
    ensures x == y
  {
    assert x == (e + x)[|e|..];
    assert y == (e + y)[|e|..];
  }

  /** The first code point of a well-formed text. */
  lemma FirstOf(t: seq<byte>) returns (cp: nat, rest: seq<byte>)
    requires WellFormed(t) && t != []
    ensures Scalar(cp) && t == Encode(cp) + rest && WellFormed(rest)
  {
    var cps: seq<nat> :| Scalars(cps) && t == EncodeAll(cps);
    FirstEncoding(t, cps);
    cp, rest := cps[0], t[|Encode(cps[0])|..];
  }

  lemma FirstInside(left: seq<byte>, right: seq<byte>, cp: nat, rest: seq<byte>)
    requires Scalar(cp) && left != [] && right != [] && right[0] < 0x80 && left + right == Encode(cp) + rest
    ensures |Encode(cp)| <= |left| && left[..|Encode(cp)|] == Encode(cp)
  {
    var e, t := Encode(cp), left + right;
    assert forall k :: 0 <= k < |e| ==> t[k] == e[k];
    assert forall k :: 0 < k < |e| ==> t[k] >= 0x80;
    assert t[|left|] == right[0];
    assert left[..|e|] == t[..|e|] == (e + rest)[..|e|] == e;
  }

  /** What stands between two quotes of a well-formed text. */
  lemma BetweenQuotes(s: seq<byte>, pre: seq<byte>, mid: seq<byte>, post: seq<byte>)
    requires WellFormed(s) && s == pre + ([QUOTE] + (mid + ([QUOTE] + post)))
    ensures WellFormed(mid)
  {
    var inner := mid + ([QUOTE] + post);
    CutAtAscii(s, pre, [QUOTE] + inner);
    DropAscii([QUOTE] + inner, 1);
    assert ([QUOTE] + inner)[1..] == inner;
    CutAtAscii(inner, mid, [QUOTE] + post);
  }

  lemma QuotesAround(s: seq<byte>, i: nat, end: nat)
    requires i < end < |s| && s[i] == QUOTE && s[end] == QUOTE
    ensures s == s[..i] + ([QUOTE] + (s[i + 1..end] + ([QUOTE] + s[end + 1..])))
  {
    assert s[end..] == [QUOTE] + s[end + 1..];
    assert s[i + 1..] == s[i + 1..end] + s[end..];
    assert s[i..] == [QUOTE] + s[i + 1..];
    assert s == s[..i] + s[i..];
  }

  lemma QuotedWell(s: seq<byte>, i: nat)
    requires Terminated(s) && WellFormed(s) && i < |s| && GetQuoted(s, i).Some?
    ensures WellFormed(GetQuoted(s, i).value.bytes)
  {
    var start, end, bytes := QuotedEnd(s, i);
    RawWell(s, i, start, end);
    DecodedWell(s, start, end, bytes);
  }

  lemma DecodedWell(s: seq<byte>, start: nat, end: nat, bytes: seq<byte>)
    requires Terminated(s) && start <= end < |s| && SkipBody(s, start) == Some(end + 1) && WellFormed(s[start..end])
    requires Process(s, start, end).Some? && Process(s, start, end).value.bytes == bytes
    ensures WellFormed(bytes)
  {
    ProcessKeepsUtf8(s, start, end);
  }

  lemma RawWell(s: seq<byte>, i: nat, start: nat, end: nat)
    requires WellFormed(s) && start == i + 1 <= end < |s| && s[i] == QUOTE && s[end] == QUOTE
    ensures WellFormed(s[start..end])
  {
    QuotesAround(s, i, end);
    BetweenQuotes(s, s[..i], s[start..end], s[end + 1..]);
  }

  /** Parsing a well-formed text gives well-formed names and strings only. */
  lemma {:induction false} ParseGivesWellText(lib: Libc, s: seq<byte>, i: nat, nesting: nat)
    requires Terminated(s) && WellFormed(s) && i < |s| && ParseValue(lib, s, i, nesting).Some?
    ensures WellText(ParseValue(lib, s, i, nesting).value.value)
    decreases |s| - i, 1
  {
    var j := SkipWs(s, i);
    if s[j] == OPEN_BRACE {
      ObjectWell(lib, s, j, nesting + 1);
    } else if s[j] == OPEN_BRACKET {
      ArrayWell(lib, s, j, nesting + 1);
    } else if s[j] == QUOTE {
      QuotedWell(s, j);
    }
  }

  lemma {:induction false} ObjectWell(lib: Libc, s: seq<byte>, i: nat, nesting: nat)
    requires Terminated(s) && WellFormed(s) && i < |s| && s[i] == OPEN_BRACE
    requires ParseObject(lib, s, i, nesting).Some?
    ensures WellText(ParseObject(lib, s, i, nesting).value.value)
    decreases |s| - i, 0
  {
    var j := SkipWs(s, i + 1);
    if s[j] != CLOSE_BRACE {
      MembersWell(lib, s, j, nesting, []);
    }
  }

  lemma {:induction false} ArrayWell(lib: Libc, s: seq<byte>, i: nat, nesting: nat)
    requires Terminated(s) && WellFormed(s) && i < |s| && s[i] == OPEN_BRACKET
    requires ParseArray(lib, s, i, nesting).Some?
    ensures WellText(ParseArray(lib, s, i, nesting).value.value)
    decreases |s| - i, 0
  {
    var j := SkipWs(s, i + 1);
    if s[j] != CLOSE_BRACKET {
      ItemsWell(lib, s, j, nesting, []);
    }
  }

  lemma {:induction false} ItemsWell(lib: Libc, s: seq<byte>, i: nat, nesting: nat, acc: seq<Json>)
    requires Terminated(s) && WellFormed(s) && i < |s| && ParseItems(lib, s, i, nesting, acc).Some?
    requires WellText(Array(acc))
    ensures WellText(ParseItems(lib, s, i, nesting, acc).value.value)
    decreases |s| - i, 2
  {
    var v := ParseValue(lib, s, i, nesting).value;
    ParseGivesWellText(lib, s, i, nesting);
    var items := acc + [v.value];
    assert WellText(Array(items));
    match AfterElement(s, v.next, CLOSE_BRACKET)
    case More(k) => ItemsWell(lib, s, k, nesting, items);
    case _ =>
  }

  lemma {:induction false} MembersWell(lib: Libc, s: seq<byte>, i: nat, nesting: nat, acc: seq<Member<Json>>)
    requires Terminated(s) && WellFormed(s) && i < |s| && ParseMembers(lib, s, i, nesting, acc).Some?
    requires WellText(Object(acc))
    ensures WellText(ParseMembers(lib, s, i, nesting, acc).value.value)
    decreases |s| - i, 2
  {
    var m := ParseMember(lib, s, i, nesting).value;
    QuotedWell(s, i);
    ParseGivesWellText(lib, s, ParseKey(s, i).value.next, nesting);
    var ms := acc + [m.member];
    assert WellText(Object(ms));
    match AfterElement(s, m.next, CLOSE_BRACE)
    case More(k) => MembersWell(lib, s, k, nesting, ms);
    case _ =>
  }

  // ----- printing -----

  lemma {:induction false} EscapeConcat(a: seq<byte>, b: seq<byte>, escapeSlashes: bool)
    ensures Escape(a + b, escapeSlashes) == Escape(a, escapeSlashes) + Escape(b, escapeSlashes)
    decreases |a|
  {
    if a == [] {
      assert a + b == b;
    } else {
      assert (a + b)[1..] == a[1..] + b;
      EscapeConcat(a[1..], b, escapeSlashes);
    }
  }

  lemma {:induction false} HighBytesStay(e: seq<byte>, escapeSlashes: bool)
    requires forall k :: 0 <= k < |e| ==> e[k] >= 0x80
    ensures Escape(e, escapeSlashes) == e
    decreases |e|
  {
    if e != [] {
      HighBytesStay(e[1..], escapeSlashes);
    }
  }

  lemma EscapedEncoding(cp: nat, escapeSlashes: bool)
    requires Scalar(cp)
    ensures WellFormed(Escape(Encode(cp), escapeSlashes))
  {
    if cp < 0x80 {
      assert Encode(cp)[1..] == [];
      assert Escape(Encode(cp), escapeSlashes) == EscapeByte(cp, escapeSlashes);
      AsciiWellFormed(EscapeByte(cp, escapeSlashes));
    } else {
      HighBytesStay(Encode(cp), escapeSlashes);
      assert EncodeAll([]) == [];
      PutFirst(cp, []);
      assert Encode(cp) + [] == Encode(cp);
    }
  }

  lemma {:induction false} EscapeKeepsUtf8(str: seq<byte>, escapeSlashes: bool)
    requires WellFormed(str)
    ensures WellFormed(Escape(str, escapeSlashes))
    decreases |str|
  {
    var cps: seq<nat> :| Scalars(cps) && str == EncodeAll(cps);
    if cps == [] {
      assert Escape([], escapeSlashes) == EncodeAll([]);
    } else {
      FirstEncoding(str, cps);
      var e := Encode(cps[0]);
      assert str == e + str[|e|..];
      EscapeConcat(e, str[|e|..], escapeSlashes);
      EscapedEncoding(cps[0], escapeSlashes);
      EscapeKeepsUtf8(str[|e|..], escapeSlashes);
      Concat(Escape(e, escapeSlashes), Escape(str[|e|..], escapeSlashes));
    }
  }

  lemma QuotedKeepsUtf8(str: seq<byte>, escapeSlashes: bool)
    requires WellFormed(str)
    ensures WellFormed(Quoted(str, escapeSlashes))
  {
    EscapeKeepsUtf8(str, escapeSlashes);
    AsciiWellFormed([QUOTE]);
    Concat([QUOTE], Escape(str, escapeSlashes));
    Concat([QUOTE] + Escape(str, escapeSlashes), [QUOTE]);
  }

  lemma WsWell(st: Style, w: seq<byte>)
    requires AllSpace(w)
    ensures WellFormed(Ws(st, w))
  {
    AsciiWellFormed(Ws(st, w));
  }

  lemma IndentWell(st: Style, level: nat)
    ensures WellFormed(Ws(st, Indent(level)))
  {
    IndentIsSpace(level);
    WsWell(st, Indent(level));
  }

  lemma SeparatorWell(st: Style, last: bool)
    ensures WellFormed(Separator(st, last))
  {
    WsWell(st, [NEWLINE]);
    AsciiWellFormed(if last then [] else [COMMA]);
    Concat(if last then [] else [COMMA], Ws(st, [NEWLINE]));
  }

  lemma ListWell(st: Style, open: byte, list: seq<byte>, level: nat, close: byte)
    requires open < 0x80 && close < 0x80 && WellFormed(list)
    ensures WellFormed(Listed(st, open, list, level, close)) && WellFormed([open, close])
  {
    var newline, indent := Ws(st, [NEWLINE]), Ws(st, Indent(level));
    WsWell(st, [NEWLINE]);
    IndentWell(st, level);
    AsciiWellFormed([open]);
    AsciiWellFormed([close]);
    AsciiWellFormed([open, close]);
    Concat([open], newline);
    Concat([open] + newline, list);
    Concat([open] + newline + list, indent);
    Concat([open] + newline + list + indent, [close]);
  }

  lemma KeyWell(st: Style, key: CString)
    requires WellFormed(key)
    ensures WellFormed(PrintKey(st, key))
  {
    QuotedKeepsUtf8(key, st.escapeSlashes);
    AsciiWellFormed([COLON]);
    WsWell(st, [SPACE]);
    Concat(Quoted(key, st.escapeSlashes), [COLON]);
    Concat(Quoted(key, st.escapeSlashes) + [COLON], Ws(st, [SPACE]));
  }

  /** A tree of well-formed names and strings prints as well-formed text. */
  lemma {:induction false} PrintWell(lib: Libc, st: Style, v: Json, level: nat)
    requires WellText(v) && NumbersReadBack(lib, v)
    ensures WellFormed(Print(lib, st, v, level))
    decreases v
  {
    match v
    case Null => AsciiWellFormed(NullToken());
    case Boolean(b) => AsciiWellFormed(if b then TrueToken() else FalseToken());
    case Number(x) => AsciiWellFormed(lib.format(x));
    case Str(chars) => QuotedKeepsUtf8(chars, st.escapeSlashes);
    case Array(items) =>
      ItemsPrintWell(lib, st, items, level);
      ListWell(st, OPEN_BRACKET, PrintItems(lib, st, items, level), level, CLOSE_BRACKET);
    case Object(ms) =>
      MembersPrintWell(lib, st, ms, level);
      ListWell(st, OPEN_BRACE, PrintMembers(lib, st, ms, level), level, CLOSE_BRACE);
  }

  lemma {:induction false} ItemsPrintWell(lib: Libc, st: Style, items: seq<Json>, level: nat)
    requires forall k :: 0 <= k < |items| ==> WellText(items[k]) && NumbersReadBack(lib, items[k])
    ensures WellFormed(PrintItems(lib, st, items, level))
    decreases items
  {
    if items == [] {
      AsciiWellFormed([]);
    } else {
      var indent, v := Ws(st, Indent(level + 1)), Print(lib, st, items[0], level + 1);
      var separator, rest := Separator(st, |items| == 1), PrintItems(lib, st, items[1..], level);
      IndentWell(st, level + 1);
      SeparatorWell(st, |items| == 1);
      PrintWell(lib, st, items[0], level + 1);
      ItemsPrintWell(lib, st, items[1..], level);
      Concat(separator, rest);
      Concat(indent, v);
      Concat(indent + v, separator + rest);
    }
  }

  lemma Concat5(a: seq<byte>, b: seq<byte>, c: seq<byte>, d: seq<byte>, e: seq<byte>)
    requires WellFormed(a) && WellFormed(b) && WellFormed(c) && WellFormed(d) && WellFormed(e)
    ensures WellFormed(a + b + c + (d + e))
  {
    Concat(a, b);
    Concat(a + b, c);
    Concat(d, e);
    Concat(a + b + c, d + e);
  }

  lemma MemberPrintsWell(st: Style, key: CString, value: seq<byte>, last: bool, level: nat, rest: seq<byte>)
    requires WellFormed(key) && WellFormed(value) && WellFormed(rest)
    ensures WellFormed(Ws(st, Indent(level + 1)) + PrintKey(st, key) + value + (Separator(st, last) + rest))
  {
    IndentWell(st, level + 1);
    KeyWell(st, key);
    SeparatorWell(st, last);
    Concat5(Ws(st, Indent(level + 1)), PrintKey(st, key), value, Separator(st, last), rest);
  }

  lemma {:induction false} MembersPrintWell(lib: Libc, st: Style, ms: seq<Member<Json>>, level: nat)
    requires forall k :: 0 <= k < |ms| ==>
               WellFormed(ms[k].key) && WellText(ms[k].value) && NumbersReadBack(lib, ms[k].value)
    ensures WellFormed(PrintMembers(lib, st, ms, level))
    decreases ms
  {
    if ms == [] {
      AsciiWellFormed([]);
    } else {
      PrintWell(lib, st, ms[0].value, level + 1);
      MembersPrintWell(lib, st, ms[1..], level);
      MemberPrintsWell(st, ms[0].key, Print(lib, st, ms[0].value, level + 1), |ms| == 1, level,
                       PrintMembers(lib, st, ms[1..], level));
    }
  }

  // ----- the log -----

  ghost predicate SlotWell(slot: Slot) {
    WellFormed(slot.name) && (slot.value.Some? ==> WellText(slot.value.value))
  }

  lemma {:induction false} PresentWell(slots: seq<Slot>, n: nat)
    requires n <= |slots| && forall i :: 0 <= i < n ==> SlotWell(slots[i])
    ensures WellText(Object(Present(slots[..n])))
  {
    if n > 0 {
      assert SlotWell(slots[n - 1]);
      PresentWell(slots, n - 1);
      assert slots[..n][..n - 1] == slots[..n - 1];
    }
  }

  lemma TextWell(name: CString, s: Option<CString>)
    requires WellFormed(name)
    ensures SlotWell(Slot(name, TextValue(s)))
  {
  }

  lemma RegistersWell(v: Violation)
    ensures WellText(Object(Present(RegisterSlots(v))))
  {
    var slots := RegisterSlots(v);
    forall i | 0 <= i < 8 ensures SlotWell(slots[i]) {
      AsciiWellFormed(RegisterNames()[i]);
      TextWell(RegisterNames()[i], Some(RegisterText(RegisterValues(v)[i])));
    }
    assert slots[..8] == slots;
    PresentWell(slots, 8);
  }

  lemma SevenWell(slots: seq<Slot>)
    requires |slots| == 7 && SlotWell(slots[0]) && SlotWell(slots[1]) && SlotWell(slots[2])
    requires SlotWell(slots[3]) && SlotWell(slots[4]) && SlotWell(slots[5]) && SlotWell(slots[6])
    ensures WellText(Object(Present(slots)))
  {
    assert slots[..7] == slots;
    PresentWell(slots, 7);
  }

  /** Whatever bytes the names and places have, a record holds well-formed text only. */
  lemma RecordWell(toDouble: u64 -> real, v: Violation)
    ensures WellText(Record(toDouble, v))
  {
    var slots, names := RecordSlots(toDouble, v), RecordNames();
    forall i | 0 <= i < 7 ensures WellFormed(names[i]) {
      AsciiWellFormed(names[i]);
    }
    TextWell(names[1], v.timestamp);
    TextWell(names[3], v.syscallName);
    RegistersWell(v);
    TextWell(names[5], v.resolvedFunc);
    TextWell(names[6], v.resolvedFile);
    assert SlotWell(slots[0]) && SlotWell(slots[2]) && SlotWell(slots[4]);
    SevenWell(slots);
  }

  lemma EntryWell(first: bool, text: seq<byte>)
    requires WellFormed(text)
    ensures WellFormed(Entry(first, text))
  {
    var lead := [if first then OPEN_BRACKET else COMMA];
    AsciiWellFormed(lead);
    AsciiWellFormed([NEWLINE]);
    Concat(lead, text);
    Concat(lead + text, [NEWLINE]);
  }

  lemma {:induction false} LogTextWell(texts: seq<seq<byte>>)
    requires forall k :: 0 <= k < |texts| ==> WellFormed(texts[k])
    ensures WellFormed(LogText(texts))
    decreases |texts|
  {
    if texts == [] {
      AsciiWellFormed([]);
    } else {
      var last := |texts| - 1;
      LogTextWell(texts[..last]);
      EntryWell(last == 0, texts[last]);
      Concat(LogText(texts[..last]), Entry(last == 0, texts[last]));
    }
  }

  lemma RecordTextWell(lib: Libc, toDouble: u64 -> real, v: Violation)
    requires NumbersSurvive(lib, toDouble, v)
    ensures WellFormed(Print(lib, LOG_STYLE, Record(toDouble, v), 0))
  {
    RecordWell(toDouble, v);
    RecordReadable(lib, toDouble, v);
    PrintWell(lib, LOG_STYLE, Record(toDouble, v), 0);
  }

  lemma FileTextWell(texts: seq<seq<byte>>, closed: bool)
    requires forall k :: 0 <= k < |texts| ==> WellFormed(texts[k])
    ensures WellFormed(FileText(texts, closed))
  {
    LogTextWell(texts);
    AsciiWellFormed([CLOSE_BRACKET, NEWLINE]);
    AsciiWellFormed([]);
    Concat(LogText(texts), [CLOSE_BRACKET, NEWLINE]);
    Concat(LogText(texts), []);
  }

  /** All that a run adds to the log file is well-formed UTF-8, however the run ends. */
  lemma RunTextWell(lib: Libc, toDouble: u64 -> real, stops: seq<Stop>, closeOpens: bool)
    requires forall k :: 0 <= k < |Logged(stops)| ==> NumbersSurvive(lib, toDouble, Logged(stops)[k])
    ensures WellFormed(RunText(lib, toDouble, stops, closeOpens))
  {
    var vs := Logged(stops);
    var texts := RecordTexts(lib, toDouble, vs);
    forall k | 0 <= k < |texts| ensures WellFormed(texts[k]) {
      RecordTextWell(lib, toDouble, vs[k]);
    }
    FileTextWell(texts, EndOf(stops) == LeftLoop && closeOpens);
  }
}
