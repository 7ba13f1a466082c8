/** What the serializer of include/parson.c:1146-1355 writes in its two styles, character by character. */
module JsonLayout {
  import opened AssocLists
  import opened Bytes
  import opened JsonSyntax
  import opened JsonText
  import opened JsonTrees
  import opened Strings

  /** Section 7 of RFC 8259: how the serializer writes one byte of a string. */
  function ByteText(c: byte, escapeSlashes: bool): seq<byte> {
    if c == 0x08 then [Char('\\'), Char('b')]
    else if c == 0x09 then [Char('\\'), Char('t')]
    else if c == 0x0A then [Char('\\'), Char('n')]
    else if c == 0x0C then [Char('\\'), Char('f')]
    else if c == 0x0D then [Char('\\'), Char('r')]
    else if c < 0x20 then
      [Char('\\'), Char('u'), Char('0'), Char('0'), if c < 16 then Char('0') else Char('1'),
       Char("0123456789abcdef"[c % 16])]
    else if c == Char('"') then [Char('\\'), Char('"')]
    else if c == Char('\\') then [Char('\\'), Char('\\')]
    else if c == Char('/') && escapeSlashes then [Char('\\'), Char('/')]
    else [c]
  }

  function BytesText(chars: seq<byte>, escapeSlashes: bool): seq<byte> {
    if chars == [] then [] else ByteText(chars[0], escapeSlashes) + BytesText(chars[1..], escapeSlashes)
  }

  function QuotedText(chars: seq<byte>, escapeSlashes: bool): seq<byte> {
    [Char('"')] + BytesText(chars, escapeSlashes) + [Char('"')]
  }

  /** Texts with a comma between any two of them. */
  function Joined(texts: seq<seq<byte>>): seq<byte> {
    if texts == [] then []
    else if |texts| == 1 then texts[0]
    else texts[0] + ([Char(',')] + Joined(texts[1..]))
  }

  function Blanks(n: nat): (t: seq<byte>)
    ensures |t| == n
  {
    if n == 0 then [] else [Char(' ')] + Blanks(n - 1)
  }

  function WordText(lib: Libc, v: Json, escapeSlashes: bool): seq<byte>
    requires !v.Array? && !v.Object?
  {
    match v
    case Null => [Char('n'), Char('u'), Char('l'), Char('l')]
    case Boolean(b) =>
      if b then [Char('t'), Char('r'), Char('u'), Char('e')]
      else [Char('f'), Char('a'), Char('l'), Char('s'), Char('e')]
    case Number(x) => lib.format(x)
    case Str(chars) => QuotedText(chars, escapeSlashes)
  }

  // ----- the compact form -----

  /** No byte stands between the tokens. */
  function Compact(lib: Libc, v: Json, escapeSlashes: bool): seq<byte>
    decreases v
  {
    match v
    case Array(items) => [Char('[')] + Joined(CompactItems(lib, items, escapeSlashes)) + [Char(']')]
    case Object(ms) => [Char('{')] + Joined(CompactMembers(lib, ms, escapeSlashes)) + [Char('}')]
    case _ => WordText(lib, v, escapeSlashes)
  }

  function CompactItems(lib: Libc, items: seq<Json>, escapeSlashes: bool): (texts: seq<seq<byte>>)
    ensures |texts| == |items|
    decreases items
  {
    if items == [] then [] else [Compact(lib, items[0], escapeSlashes)] + CompactItems(lib, items[1..], escapeSlashes)
  }

  function CompactMembers(lib: Libc, ms: seq<Member<Json>>, escapeSlashes: bool): (texts: seq<seq<byte>>)
    ensures |texts| == |ms|
    decreases ms
  {
    if ms == [] then []
    else [QuotedText(ms[0].key, escapeSlashes) + [Char(':')] + Compact(lib, ms[0].value, escapeSlashes)]
         + CompactMembers(lib, ms[1..], escapeSlashes)
  }

  // ----- the pretty form -----

  /** A new line, indented by four blanks a level. */
  function NewLine(level: nat): seq<byte> {
    [Char('\n')] + Blanks(4 * level)
  }

  /** Every element stands on a line of its own, one level deeper, and the closing bracket on a line at this level. */
  function Pretty(lib: Libc, v: Json, level: nat, escapeSlashes: bool): seq<byte>
    decreases v
  {
    match v
    case Array(items) =>
      if items == [] then [Char('['), Char(']')]
      else [Char('[')] + Joined(PrettyItems(lib, items, level + 1, escapeSlashes)) + NewLine(level) + [Char(']')]
    case Object(ms) =>
      if ms == [] then [Char('{'), Char('}')]
      else [Char('{')] + Joined(PrettyMembers(lib, ms, level + 1, escapeSlashes)) + NewLine(level) + [Char('}')]
    case _ => WordText(lib, v, escapeSlashes)
  }

  function PrettyItems(lib: Libc, items: seq<Json>, level: nat, escapeSlashes: bool): (texts: seq<seq<byte>>)
    ensures |texts| == |items|
    decreases items
  {
    if items == [] then []
    else [NewLine(level) + Pretty(lib, items[0], level, escapeSlashes)]
         + PrettyItems(lib, items[1..], level, escapeSlashes)
  }

  function PrettyMembers(lib: Libc, ms: seq<Member<Json>>, level: nat, escapeSlashes: bool): (texts: seq<seq<byte>>)
    ensures |texts| == |ms|
    decreases ms
  {
    if ms == [] then []
    else [NewLine(level) + (QuotedText(ms[0].key, escapeSlashes) + [Char(':'), Char(' ')]
                            + Pretty(lib, ms[0].value, level, escapeSlashes))]
         + PrettyMembers(lib, ms[1..], level, escapeSlashes)
  }

  // ----- strings and words -----

  lemma ByteTextIs(c: byte, escapeSlashes: bool)
    ensures EscapeByte(c, escapeSlashes) == ByteText(c, escapeSlashes)
  {
  }

  lemma {:induction false} BytesTextIs(chars: seq<byte>, escapeSlashes: bool)
    ensures Escape(chars, escapeSlashes) == BytesText(chars, escapeSlashes)
    decreases |chars|
  {
    if chars != [] {
      ByteTextIs(chars[0], escapeSlashes);
      BytesTextIs(chars[1..], escapeSlashes);
    }
  }

  lemma WordTextIs(lib: Libc, st: Style, v: Json, level: nat)
    requires !v.Array? && !v.Object?
    ensures Print(lib, st, v, level) == WordText(lib, v, st.escapeSlashes)
  {
    if v.Str? {
      BytesTextIs(v.chars, st.escapeSlashes);
    }
  }

  lemma FourBlanks(n: nat)
    ensures Blanks(n + 4) == [SPACE, SPACE, SPACE, SPACE] + Blanks(n)
  {
    assert Blanks(n + 4) == [SPACE] + Blanks(n + 3);
    assert Blanks(n + 3) == [SPACE] + Blanks(n + 2);
    assert Blanks(n + 2) == [SPACE] + Blanks(n + 1);
    assert Blanks(n + 1) == [SPACE] + Blanks(n);
  }

  lemma {:induction false} IndentIs(level: nat)
    ensures Indent(level) == Blanks(4 * level)
    decreases level
  {
    if level > 0 {
      IndentIs(level - 1);
      FourBlanks(4 * (level - 1));
    }
  }

  lemma JoinedStep(first: seq<byte>, rest: seq<seq<byte>>, texts: seq<seq<byte>>)
    requires texts == [first] + rest
    ensures Joined(texts) == if rest == [] then first else first + ([Char(',')] + Joined(rest))
  {
    assert texts[1..] == rest;
  }

  // ----- the compact form is what is printed -----

  /** The compact style prints the compact form. */
  lemma {:induction false} PrintsCompact(lib: Libc, v: Json, level: nat, escapeSlashes: bool)
    ensures Print(lib, Style(false, escapeSlashes), v, level) == Compact(lib, v, escapeSlashes)
    decreases v, 1
  {
    var st := Style(false, escapeSlashes);
    match v
    case Array(items) =>
      CompactItemsAre(lib, items, level, escapeSlashes);
      CompactArray(lib, st, v, items, PrintItems(lib, st, items, level), level);
    case Object(ms) =>
      CompactMembersAre(lib, ms, level, escapeSlashes);
      CompactObject(lib, st, v, ms, PrintMembers(lib, st, ms, level), level);
    case _ => WordTextIs(lib, st, v, level);
  }

  lemma CompactArray(lib: Libc, st: Style, v: Json, items: seq<Json>, list: seq<byte>, level: nat)
    requires !st.pretty && v == Array(items) && list == PrintItems(lib, st, items, level)
    ensures Print(lib, st, v, level) == [Char('[')] + list + [Char(']')]
  {
    if items == [] {
      assert [OPEN_BRACKET] + [] + [CLOSE_BRACKET] == [OPEN_BRACKET, CLOSE_BRACKET];
    } else {
      ArrayPrinted(lib, st, v, items, list, level);
      CompactListed(st, OPEN_BRACKET, list, level, CLOSE_BRACKET);
    }
  }

  lemma CompactObject(lib: Libc, st: Style, v: Json, ms: seq<Member<Json>>, list: seq<byte>, level: nat)
    requires !st.pretty && v == Object(ms) && list == PrintMembers(lib, st, ms, level)
    ensures Print(lib, st, v, level) == [Char('{')] + list + [Char('}')]
  {
    if ms == [] {
      assert [OPEN_BRACE] + [] + [CLOSE_BRACE] == [OPEN_BRACE, CLOSE_BRACE];
    } else {
      ObjectPrinted(lib, st, v, ms, list, level);
      CompactListed(st, OPEN_BRACE, list, level, CLOSE_BRACE);
    }
  }

  lemma CompactListed(st: Style, open: byte, list: seq<byte>, level: nat, close: byte)
    requires !st.pretty
    ensures Listed(st, open, list, level, close) == [open] + list + [close]
  {
  }

  lemma {:induction false} CompactItemsAre(lib: Libc, items: seq<Json>, level: nat, escapeSlashes: bool)
    ensures PrintItems(lib, Style(false, escapeSlashes), items, level)
            == Joined(CompactItems(lib, items, escapeSlashes))
    decreases items, 0
  {
    if items != [] {
      PrintsCompact(lib, items[0], level + 1, escapeSlashes);
      CompactItemsAre(lib, items[1..], level, escapeSlashes);
      var first, rest := Compact(lib, items[0], escapeSlashes), CompactItems(lib, items[1..], escapeSlashes);
      JoinedStep(first, rest, CompactItems(lib, items, escapeSlashes));
      CompactStep(first, |items| == 1, Joined(rest));
    }
  }

  lemma CompactStep(first: seq<byte>, last: bool, rest: seq<byte>)
    requires last ==> rest == []
    ensures [] + first + ((if last then [] else [COMMA]) + [] + rest)
            == if last then first else first + ([COMMA] + rest)
  {
  }

  lemma {:induction false} CompactMembersAre(lib: Libc, ms: seq<Member<Json>>, level: nat, escapeSlashes: bool)
    ensures PrintMembers(lib, Style(false, escapeSlashes), ms, level)
            == Joined(CompactMembers(lib, ms, escapeSlashes))
    decreases ms, 0
  {
    if ms != [] {
      PrintsCompact(lib, ms[0].value, level + 1, escapeSlashes);
      CompactMembersAre(lib, ms[1..], level, escapeSlashes);
      BytesTextIs(ms[0].key, escapeSlashes);
      var key, value := QuotedText(ms[0].key, escapeSlashes) + [Char(':')], Compact(lib, ms[0].value, escapeSlashes);
      var rest := CompactMembers(lib, ms[1..], escapeSlashes);
      JoinedStep(key + value, rest, CompactMembers(lib, ms, escapeSlashes));
      CompactStep(key + value, |ms| == 1, Joined(rest));
      CompactKey(Style(false, escapeSlashes), ms[0].key, key, value);
    }
  }

  lemma CompactKey(st: Style, name: CString, key: seq<byte>, value: seq<byte>)
    requires !st.pretty && key == Quoted(name, st.escapeSlashes) + [COLON]
    ensures [] + PrintKey(st, name) + value == [] + (key + value)
  {
  }

  // ----- the pretty form is what is printed -----

  /** The pretty style prints the pretty form. */
  lemma {:induction false} PrintsPretty(lib: Libc, v: Json, level: nat, escapeSlashes: bool)
    ensures Print(lib, Style(true, escapeSlashes), v, level) == Pretty(lib, v, level, escapeSlashes)
    decreases v, 1
  {
    var st := Style(true, escapeSlashes);
    match v
    case Array(items) =>
      if items != [] {
        var list := PrintItems(lib, st, items, level);
        PrettyItemsAre(lib, items, level, escapeSlashes);
        ArrayPrinted(lib, st, v, items, list, level);
        PrettyListed(st, OPEN_BRACKET, list, Joined(PrettyItems(lib, items, level + 1, escapeSlashes)), level,
                     CLOSE_BRACKET);
      }
    case Object(ms) =>
      if ms != [] {
        var list := PrintMembers(lib, st, ms, level);
        PrettyMembersAre(lib, ms, level, escapeSlashes);
        ObjectPrinted(lib, st, v, ms, list, level);
        PrettyListed(st, OPEN_BRACE, list, Joined(PrettyMembers(lib, ms, level + 1, escapeSlashes)), level,
                     CLOSE_BRACE);
      }
    case _ => WordTextIs(lib, st, v, level);
  }

  /** The serializer ends each line behind an element; the pretty form starts one in front of it. */
  lemma PrettyListed(st: Style, open: byte, list: seq<byte>, joined: seq<byte>, level: nat, close: byte)
    requires st.pretty && [Char('\n')] + list == joined + [Char('\n')]
    ensures Listed(st, open, list, level, close) == [open] + joined + NewLine(level) + [close]
  {
    IndentIs(level);
    Regroup([open], [NEWLINE], list);
    Regroup([open], joined, [NEWLINE]);
    Regroup([open] + joined, [NEWLINE], Indent(level));
  }

  lemma PrettyStep(indent: seq<byte>, t: seq<byte>, last: bool, list: seq<byte>, joined: seq<byte>)
    requires if last then list == [] else [Char('\n')] + list == joined + [Char('\n')]
    ensures [Char('\n')] + (indent + t + ((if last then [] else [COMMA]) + [NEWLINE] + list))
            == (if last then [Char('\n')] + indent + t
                else [Char('\n')] + indent + t + ([COMMA] + joined)) + [Char('\n')]
  {
    var line := [NEWLINE] + indent + t;
    if last {
      assert [] + [NEWLINE] + list == [NEWLINE];
    } else {
      Regroup([COMMA], [NEWLINE], list);
      Regroup([COMMA], joined, [NEWLINE]);
      Regroup(line, [COMMA] + joined, [NEWLINE]);
    }
    Regroup([NEWLINE], indent, t);
    Regroup([NEWLINE], indent + t, (if last then [] else [COMMA]) + [NEWLINE] + list);
  }

  lemma {:induction false} PrettyItemsAre(lib: Libc, items: seq<Json>, level: nat, escapeSlashes: bool)
    requires items != []
    ensures [Char('\n')] + PrintItems(lib, Style(true, escapeSlashes), items, level)
            == Joined(PrettyItems(lib, items, level + 1, escapeSlashes)) + [Char('\n')]
    decreases items, 0
  {
    var st, others := Style(true, escapeSlashes), items[1..];
    var t, rest := Pretty(lib, items[0], level + 1, escapeSlashes), PrettyItems(lib, others, level + 1, escapeSlashes);
    PrintsPretty(lib, items[0], level + 1, escapeSlashes);
    if others != [] {
      PrettyItemsAre(lib, others, level, escapeSlashes);
    }
    IndentIs(level + 1);
    JoinedStep(NewLine(level + 1) + t, rest, PrettyItems(lib, items, level + 1, escapeSlashes));
    PrettyStep(Blanks(4 * (level + 1)), t, others == [], PrintItems(lib, st, others, level), Joined(rest));
  }

  lemma {:induction false} PrettyMembersAre(lib: Libc, ms: seq<Member<Json>>, level: nat, escapeSlashes: bool)
    requires ms != []
    ensures [Char('\n')] + PrintMembers(lib, Style(true, escapeSlashes), ms, level)
            == Joined(PrettyMembers(lib, ms, level + 1, escapeSlashes)) + [Char('\n')]
    decreases ms, 0
  {
    var st, others, indent := Style(true, escapeSlashes), ms[1..], Blanks(4 * (level + 1));
    var key := QuotedText(ms[0].key, escapeSlashes) + [Char(':'), Char(' ')];
    var value, rest := Pretty(lib, ms[0].value, level + 1, escapeSlashes),
                       PrettyMembers(lib, others, level + 1, escapeSlashes);
    PrintsPretty(lib, ms[0].value, level + 1, escapeSlashes);
    if others != [] {
      PrettyMembersAre(lib, others, level, escapeSlashes);
    }
    IndentIs(level + 1);
    BytesTextIs(ms[0].key, escapeSlashes);
    PrettyKey(st, ms[0].key, key);
    JoinedStep(NewLine(level + 1) + (key + value), rest, PrettyMembers(lib, ms, level + 1, escapeSlashes));
    Regroup(indent, key, value);
    PrettyStep(indent, key + value, others == [], PrintMembers(lib, st, others, level), Joined(rest));
  }

  lemma PrettyKey(st: Style, name: CString, key: seq<byte>)
    requires st.pretty && key == Quoted(name, st.escapeSlashes) + [Char(':'), Char(' ')]
    ensures PrintKey(st, name) == key
  {
    assert [COLON] + [SPACE] == [COLON, SPACE];
    Regroup(Quoted(name, st.escapeSlashes), [COLON], [SPACE]);
  }
}
