/**
 The serializer of include/parson.c:1129-1355. One recursive method runs with no buffer to measure
 and with a buffer to write.
 */
module JsonSerializer {
  import opened AssocLists
  import opened Buffers
  import opened Bytes
  import opened JsonText
  import opened JsonTrees
  import opened Strings

  lemma EscapeNext(s: seq<byte>, i: nat, escapeSlashes: bool)
    requires i < |s|
    ensures Escape(s[i..], escapeSlashes) == EscapeByte(s[i], escapeSlashes) + Escape(s[i + 1..], escapeSlashes)
  {
    assert s[i..][1..] == s[i + 1..];
  }

  /** Pieces put out one after the other. */
  lemma Together(t: seq<byte>, a: seq<byte>, b: seq<byte>, c: seq<byte>, d: seq<byte>, e: seq<byte>)
    ensures t + a + b + c + d + e == t + (a + b + c + d + e)
  {
    Regroup(t, a + b + c + d, e);
    Regroup(t, a + b + c, d);
    Regroup(t, a + b, c);
    Regroup(t, a, b);
  }

  /** One turn of the string loop: an escape, or the byte itself. */
  method SerializeByte(c: byte, escapeSlashes: bool, out: Output)
    requires out.Valid() && out.Room(|EscapeByte(c, escapeSlashes)|)
    modifies out, out.buf
    ensures out.Valid() && out.text == old(out.text) + EscapeByte(c, escapeSlashes)
  {
    if ShortEscape(c).Some? || c < 32 || c == SLASH {
      out.Append(EscapeByte(c, escapeSlashes));
    } else {
      out.AppendByte(c);
    }
  }

  /** `json_serialize_string` */
  method SerializeString(s: seq<byte>, escapeSlashes: bool, out: Output)
    requires out.Valid() && out.Room(|Quoted(s, escapeSlashes)|)
    modifies out, out.buf
    ensures out.Valid() && out.text == old(out.text) + Quoted(s, escapeSlashes) && out.Terminated()
  {
    out.Append([QUOTE]);
    ghost var text0 := out.text;
    var i := 0;
    while i < |s|
      invariant i <= |s| && out.Valid()
      invariant out.text + Escape(s[i..], escapeSlashes) == text0 + Escape(s, escapeSlashes)
    {
      EscapeNext(s, i, escapeSlashes);
      Regroup(out.text, EscapeByte(s[i], escapeSlashes), Escape(s[i + 1..], escapeSlashes));
      SerializeByte(s[i], escapeSlashes, out);
      i := i + 1;
    }
    assert out.text == text0 + Escape(s, escapeSlashes);
    out.Append([QUOTE]);
  }

  /** White space that only the pretty form has; the compact form appends nothing. */
  method AppendWs(st: Style, w: seq<byte>, out: Output)
    requires out.Valid() && out.Room(|Ws(st, w)|)
    modifies out, out.buf
    ensures out.Valid() && out.text == old(out.text) + Ws(st, w)
  {
    if st.pretty {
      out.Append(w);
    }
  }

  /** APPEND_INDENT: one level after the other. */
  method AppendIndent(st: Style, level: nat, out: Output)
    requires out.Valid() && out.Room(|Ws(st, Indent(level))|)
    modifies out, out.buf
    ensures out.Valid() && out.text == old(out.text) + Ws(st, Indent(level))
  {
    if st.pretty {
      ghost var text0 := out.text;
      var i := 0;
      while i < level
        invariant i <= level && out.Valid()
        invariant out.text + Indent(level - i) == text0 + Indent(level)
      {
        Regroup(out.text, [SPACE, SPACE, SPACE, SPACE], Indent(level - i - 1));
        out.Append([SPACE, SPACE, SPACE, SPACE]);
        i := i + 1;
      }
    }
  }

  /** After an element: a comma unless it is the last, and the end of the line. */
  method AppendSeparator(st: Style, last: bool, out: Output)
    requires out.Valid() && out.Room(|Separator(st, last)|)
    modifies out, out.buf
    ensures out.Valid() && out.text == old(out.text) + Separator(st, last)
  {
    if !last {
      out.Append([COMMA]);
    }
    AppendWs(st, [NEWLINE], out);
  }

  /** What one turn of the element loop writes. */
  ghost function ItemText(lib: Libc, st: Style, items: seq<Json>, i: nat, level: nat): seq<byte>
    requires i < |items|
  {
    Ws(st, Indent(level + 1)) + Print(lib, st, items[i], level + 1) + Separator(st, i + 1 == |items|)
  }

  lemma ItemsLeft(lib: Libc, st: Style, items: seq<Json>, i: nat, level: nat)
    requires i < |items|
    ensures PrintItems(lib, st, items[i..], level)
            == ItemText(lib, st, items, i, level) + PrintItems(lib, st, items[i + 1..], level)
  {
    assert items[i..][1..] == items[i + 1..];
    Regroup(Ws(st, Indent(level + 1)) + Print(lib, st, items[i], level + 1), Separator(st, i + 1 == |items|),
            PrintItems(lib, st, items[i + 1..], level));
  }

  method SerializeItem(lib: Libc, st: Style, items: seq<Json>, i: nat, level: nat, out: Output)
    requires i < |items|
    requires out.Valid() && out.Room(|ItemText(lib, st, items, i, level)|)
    modifies out, out.buf
    ensures out.Valid() && out.text == old(out.text) + ItemText(lib, st, items, i, level)
    decreases items, 0
  {
    ghost var text0, value := out.text, Print(lib, st, items[i], level + 1);
    ghost var indent, separator := Ws(st, Indent(level + 1)), Separator(st, i + 1 == |items|);
    AppendIndent(st, level + 1, out);
    SerializeValue(lib, st, items[i], level + 1, out);
    AppendSeparator(st, i + 1 == |items|, out);
    Regroup(text0, indent + value, separator);
    Regroup(text0, indent, value);
  }

  /** The element loop. */
  method SerializeItems(lib: Libc, st: Style, items: seq<Json>, level: nat, out: Output)
    requires out.Valid() && out.Room(|PrintItems(lib, st, items, level)|)
    modifies out, out.buf
    ensures out.Valid() && out.text == old(out.text) + PrintItems(lib, st, items, level)
    decreases items, 1
  {
    ghost var text0, all := out.text, PrintItems(lib, st, items, level);
    var i := 0;
    while i < |items|
      invariant i <= |items| && out.Valid()
      invariant out.text + PrintItems(lib, st, items[i..], level) == text0 + all
    {
      ItemsLeft(lib, st, items, i, level);
      Regroup(out.text, ItemText(lib, st, items, i, level), PrintItems(lib, st, items[i + 1..], level));
      SerializeItem(lib, st, items, i, level, out);
      i := i + 1;
    }
  }

  method SerializeKey(st: Style, key: CString, out: Output)
    requires out.Valid() && out.Room(|PrintKey(st, key)|)
    modifies out, out.buf
    ensures out.Valid() && out.text == old(out.text) + PrintKey(st, key)
  {
    SerializeString(key, st.escapeSlashes, out);
    out.Append([COLON]);
    AppendWs(st, [SPACE], out);
  }

  /** What one turn of the member loop writes. */
  ghost function MemberText(lib: Libc, st: Style, ms: seq<Member<Json>>, i: nat, level: nat): seq<byte>
    requires i < |ms|
  {
    Ws(st, Indent(level + 1)) + PrintKey(st, ms[i].key) + Print(lib, st, ms[i].value, level + 1)
    + Separator(st, i + 1 == |ms|)
  }

  lemma MembersLeft(lib: Libc, st: Style, ms: seq<Member<Json>>, i: nat, level: nat)
    requires i < |ms|
    ensures PrintMembers(lib, st, ms[i..], level)
            == MemberText(lib, st, ms, i, level) + PrintMembers(lib, st, ms[i + 1..], level)
  {
    assert ms[i..][1..] == ms[i + 1..];
    Regroup(Ws(st, Indent(level + 1)) + PrintKey(st, ms[i].key) + Print(lib, st, ms[i].value, level + 1),
            Separator(st, i + 1 == |ms|), PrintMembers(lib, st, ms[i + 1..], level));
  }

  method SerializeMember(lib: Libc, st: Style, ms: seq<Member<Json>>, i: nat, level: nat, out: Output)
    requires i < |ms|
    requires out.Valid() && out.Room(|MemberText(lib, st, ms, i, level)|)
    modifies out, out.buf
    ensures out.Valid() && out.text == old(out.text) + MemberText(lib, st, ms, i, level)
    decreases ms, 0
  {
    ghost var text0, key, value := out.text, PrintKey(st, ms[i].key), Print(lib, st, ms[i].value, level + 1);
    ghost var indent, separator := Ws(st, Indent(level + 1)), Separator(st, i + 1 == |ms|);
    AppendIndent(st, level + 1, out);
    SerializeKey(st, ms[i].key, out);
    SerializeValue(lib, st, ms[i].value, level + 1, out);
    AppendSeparator(st, i + 1 == |ms|, out);
    Regroup(text0, indent + key + value, separator);
    Regroup(text0, indent + key, value);
    Regroup(text0, indent, key);
  }

  /** The member loop. */
  method SerializeMembers(lib: Libc, st: Style, ms: seq<Member<Json>>, level: nat, out: Output)
    requires out.Valid() && out.Room(|PrintMembers(lib, st, ms, level)|)
    modifies out, out.buf
    ensures out.Valid() && out.text == old(out.text) + PrintMembers(lib, st, ms, level)
    decreases ms, 1
  {
    ghost var text0, all := out.text, PrintMembers(lib, st, ms, level);
    var i := 0;
    while i < |ms|
      invariant i <= |ms| && out.Valid()
      invariant out.text + PrintMembers(lib, st, ms[i..], level) == text0 + all
    {
      MembersLeft(lib, st, ms, i, level);
      Regroup(out.text, MemberText(lib, st, ms, i, level), PrintMembers(lib, st, ms[i + 1..], level));
      SerializeMember(lib, st, ms, i, level, out);
      i := i + 1;
    }
  }

  lemma ListedText(st: Style, open: byte, newline: seq<byte>, list: seq<byte>, level: nat, indent: seq<byte>,
                   close: byte, text: seq<byte>)
    requires newline == Ws(st, [NEWLINE]) && indent == Ws(st, Indent(level))
    requires text == Listed(st, open, list, level, close)
    ensures text == [open] + newline + list + indent + [close]
    ensures |text| == 1 + |newline| + |list| + |indent| + 1
  {
  }

  method SerializeArray(lib: Libc, st: Style, ghost v: Json, items: seq<Json>, level: nat, out: Output)
    requires v == Array(items) && out.Valid() && out.Room(|Print(lib, st, v, level)|)
    modifies out, out.buf
    ensures out.Valid() && out.text == old(out.text) + Print(lib, st, v, level) && out.Terminated()
    decreases items, 2
  {
    ghost var text0, text := out.text, Print(lib, st, v, level);
    out.Append([OPEN_BRACKET]);
    if |items| > 0 {
      ghost var newline, list, indent := Ws(st, [NEWLINE]), PrintItems(lib, st, items, level), Ws(st, Indent(level));
      ArrayPrinted(lib, st, v, items, list, level);
      ListedText(st, OPEN_BRACKET, newline, list, level, indent, CLOSE_BRACKET, text);
      Together(text0, [OPEN_BRACKET], newline, list, indent, [CLOSE_BRACKET]);
      AppendWs(st, [NEWLINE], out);
      SerializeItems(lib, st, items, level, out);
      AppendIndent(st, level, out);
    } else {
      Regroup(text0, [OPEN_BRACKET], [CLOSE_BRACKET]);
    }
    out.Append([CLOSE_BRACKET]);
  }

  method SerializeObject(lib: Libc, st: Style, ghost v: Json, ms: seq<Member<Json>>, level: nat, out: Output)
    requires v == Object(ms) && out.Valid() && out.Room(|Print(lib, st, v, level)|)
    modifies out, out.buf
    ensures out.Valid() && out.text == old(out.text) + Print(lib, st, v, level) && out.Terminated()
    decreases ms, 2
  {
    ghost var text0, text := out.text, Print(lib, st, v, level);
    out.Append([OPEN_BRACE]);
    if |ms| > 0 {
      ghost var newline, list, indent := Ws(st, [NEWLINE]), PrintMembers(lib, st, ms, level), Ws(st, Indent(level));
      ObjectPrinted(lib, st, v, ms, list, level);
      ListedText(st, OPEN_BRACE, newline, list, level, indent, CLOSE_BRACE, text);
      Together(text0, [OPEN_BRACE], newline, list, indent, [CLOSE_BRACE]);
      AppendWs(st, [NEWLINE], out);
      SerializeMembers(lib, st, ms, level, out);
      AppendIndent(st, level, out);
    } else {
      Regroup(text0, [OPEN_BRACE], [CLOSE_BRACE]);
    }
    out.Append([CLOSE_BRACE]);
  }

  /** `json_serialize_to_buffer_r`: with or without a buffer it puts out the printed form, and a NUL behind it. */
  method SerializeValue(lib: Libc, st: Style, v: Json, level: nat, out: Output)
    requires out.Valid() && out.Room(|Print(lib, st, v, level)|)
    modifies out, out.buf
    ensures out.Valid() && out.text == old(out.text) + Print(lib, st, v, level) && out.Terminated()
    decreases v
  {
    match v
    case Array(items) => SerializeArray(lib, st, v, items, level, out);
    case Object(ms) => SerializeObject(lib, st, v, ms, level, out);
    case Str(chars) => SerializeString(chars, st.escapeSlashes, out);
    case Boolean(b) => out.Append(if b then TrueToken() else FalseToken());
    case Number(x) => out.Append(lib.format(x));
    case Null => out.Append(NullToken());
  }

  /** `json_serialization_size` and `json_serialization_size_pretty`: the measuring run counts what a writing run
      needs. */
  method SerializationSize(lib: Libc, st: Style, v: Json) returns (size: nat)
    ensures size == |Print(lib, st, v, 0)| + 1
  {
    var out := new Output(null, 0);
    SerializeValue(lib, st, v, 0, out);
    size := out.written + 1;
  }

  /** `json_serialize_to_buffer` and its pretty form: all of the text and a NUL at its end, or a refusal that writes
      nothing; bytes behind the NUL stay. */
  method SerializeToBuffer(lib: Libc, st: Style, v: Json, buf: array<byte>) returns (ok: bool)
    modifies buf
    ensures ok <==> |Print(lib, st, v, 0)| < buf.Length
    ensures !ok ==> buf[..] == old(buf[..])
    ensures var t := Print(lib, st, v, 0);
            ok ==> buf[..|t|] == t && buf[|t|] == 0 && buf[|t| + 1..] == old(buf[|t| + 1..])
  {
    ghost var t, before := Print(lib, st, v, 0), buf[..];
    var needed := SerializationSize(lib, st, v);
    if buf.Length < needed {
      return false;
    }
    var out := new Output(buf, 0);
    SerializeValue(lib, st, v, 0, out);
    assert out.text == t;
    WroteSlices(before, buf[..], 0, t);
    assert buf[..][0..|t|] == buf[..|t|];
    assert before[|t| + 1..] == old(buf[|t| + 1..]);
    return true;
  }

  /** `json_serialize_to_string`: a new string of exactly the measured size. */
  method SerializeToString(lib: Libc, st: Style, v: Json) returns (buf: array<byte>)
    ensures fresh(buf) && buf[..] == Print(lib, st, v, 0) + [0]
  {
    var size := SerializationSize(lib, st, v);
    buf := new byte[size];
    var ok := SerializeToBuffer(lib, st, v, buf);
    assert buf[..] == buf[..size - 1] + [buf[size - 1]];
  }
}
