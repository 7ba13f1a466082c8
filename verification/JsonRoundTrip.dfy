/** Printed text denotes the value it was printed from, so parsing inverts printing up to the nesting limit. */
module JsonRoundTrip {
  import opened AssocLists
  import opened Bytes
  import opened JsonSyntax
  import opened JsonText
  import opened JsonTrees
  import opened Options
  import opened ParserSteps
  import opened StringLaws
  import opened Strings
  import opened SyntaxReads

  /** What a value needs to be read back: valid objects, and numbers that `strtod` understands. */
  ghost predicate Sound(lib: Libc, v: Json) {
    match v
    case Number(x) => ReadsBack(lib, x)
    case Array(items) => SoundItems(lib, items)
    case Object(ms) => DistinctKeys(ms) && SoundMembers(lib, ms)
    case _ => true
  }

  ghost predicate SoundItems(lib: Libc, items: seq<Json>) {
    items == [] || (Sound(lib, items[0]) && SoundItems(lib, items[1..]))
  }

  ghost predicate SoundMembers(lib: Libc, ms: seq<Member<Json>>) {
    ms == [] || (Sound(lib, ms[0].value) && SoundMembers(lib, ms[1..]))
  }

  lemma ValidIsSound(lib: Libc, v: Json)
    requires Valid(v) && NumbersReadBack(lib, v)
    ensures Sound(lib, v)
    decreases v
  {
    match v
    case Array(items) => ValidItemsSound(lib, items);
    case Object(ms) => ValidMembersSound(lib, ms);
    case _ =>
  }

  lemma ValidItemsSound(lib: Libc, items: seq<Json>)
    requires forall i :: 0 <= i < |items| ==> Valid(items[i]) && NumbersReadBack(lib, items[i])
    ensures SoundItems(lib, items)
    decreases items
  {
    if items != [] {
      ValidIsSound(lib, items[0]);
      ValidItemsSound(lib, items[1..]);
    }
  }

  lemma ValidMembersSound(lib: Libc, ms: seq<Member<Json>>)
    requires forall i :: 0 <= i < |ms| ==> Valid(ms[i].value) && NumbersReadBack(lib, ms[i].value)
    ensures SoundMembers(lib, ms)
    decreases ms
  {
    if ms != [] {
      ValidIsSound(lib, ms[0].value);
      ValidMembersSound(lib, ms[1..]);
    }
  }

  lemma IndentIsSpace(level: nat)
    ensures AllSpace(Indent(level))
  {
  }

  lemma PrintStarts(lib: Libc, st: Style, v: Json, level: nat)
    requires Sound(lib, v)
    ensures |Print(lib, st, v, level)| > 0 && Starter(Print(lib, st, v, level)[0])
  {
  }

  lemma QuotedTextReads(s: seq<byte>, i: nat, j: nat, chars: seq<byte>, escapeSlashes: bool)
    requires Terminated(s) && Has(s, i, Quoted(chars, escapeSlashes)) && j == i + |Quoted(chars, escapeSlashes)|
    ensures i < |s| && s[i] == QUOTE && GetQuoted(s, i) == Some(Decoded(chars, j))
  {
    HasAt(s, i, Quoted(chars, escapeSlashes), 0);
    QuotedRoundTrip(s, i, chars, escapeSlashes);
  }

  // ----- strings -----

  function ControlHex(c: byte): Hex
    requires c < 32
  {
    Hex(HexChar(0, false), HexChar(0, false), HexChar(c / 16, false), HexChar(c % 16, false))
  }

  /** How one byte of a string is written. */
  function EscapePiece(c: byte, escapeSlashes: bool): Piece {
    if ShortEscape(c).Some? then Short(ShortEscape(c).value)
    else if c < 32 then Unit(ControlHex(c))
    else if c == SLASH && escapeSlashes then Short(SLASH)
    else Plain(c)
  }

  lemma ControlIs(c: byte, escapeSlashes: bool)
    requires c < 32 && ShortEscape(c).None?
    ensures HexText(ControlHex(c)) == EscapeByte(c, escapeSlashes)
    ensures CodeUnit(ControlHex(c)) == c && PieceBytes(Unit(ControlHex(c))) == [c]
  {
    assert 16 * (c / 16) + c % 16 == c;
  }

  lemma EscapePieceIs(c: byte, escapeSlashes: bool)
    ensures PieceText(EscapePiece(c, escapeSlashes)) == EscapeByte(c, escapeSlashes)
    ensures PieceBytes(EscapePiece(c, escapeSlashes)) == [c]
  {
    if ShortEscape(c).None? && c < 32 {
      ControlIs(c, escapeSlashes);
    }
  }

  function EscapePieces(str: seq<byte>, escapeSlashes: bool): seq<Piece> {
    if str == [] then [] else [EscapePiece(str[0], escapeSlashes)] + EscapePieces(str[1..], escapeSlashes)
  }

  lemma {:induction false} EscapePiecesAre(str: seq<byte>, escapeSlashes: bool)
    ensures PiecesText(EscapePieces(str, escapeSlashes)) == Escape(str, escapeSlashes)
    ensures PiecesBytes(EscapePieces(str, escapeSlashes)) == str
    decreases |str|
  {
    if str != [] {
      var first, rest := EscapePiece(str[0], escapeSlashes), EscapePieces(str[1..], escapeSlashes);
      EscapePieceIs(str[0], escapeSlashes);
      EscapePiecesAre(str[1..], escapeSlashes);
      assert ([first] + rest)[1..] == rest;
      assert [str[0]] + str[1..] == str;
    }
  }

  // ----- values -----

  /** The printed form of a value, cut up as the grammar says. */
  ghost function Layout(lib: Libc, st: Style, v: Json, level: nat): Syntax
    decreases v
  {
    match v
    case Null => NullWord
    case Boolean(b) => if b then TrueWord else FalseWord
    case Number(x) => NumberWord(lib.format(x))
    case Str(chars) => StringWord(EscapePieces(chars, st.escapeSlashes))
    case Array(items) => ArrayWord(LayoutItems(lib, st, items, level), [])
    case Object(ms) => ObjectWord(LayoutMembers(lib, st, ms, level), [])
  }

  ghost function LineStart(st: Style, level: nat): seq<byte> {
    Ws(st, [NEWLINE]) + Ws(st, Indent(level))
  }

  /** White space behind an element: the start of the closing line, if it is the last one. */
  ghost function LineEnd(st: Style, last: bool, level: nat): seq<byte> {
    if last then LineStart(st, level) else []
  }

  ghost function LayoutItems(lib: Libc, st: Style, items: seq<Json>, level: nat): (es: seq<Element>)
    ensures |es| == |items|
    decreases items
  {
    if items == [] then []
    else [Element(LineStart(st, level + 1), Layout(lib, st, items[0], level + 1), LineEnd(st, |items| == 1, level))]
         + LayoutItems(lib, st, items[1..], level)
  }

  ghost function LayoutMembers(lib: Libc, st: Style, ms: seq<Member<Json>>, level: nat): (fs: seq<Field>)
    ensures |fs| == |ms|
    decreases ms
  {
    if ms == [] then []
    else [Field(LineStart(st, level + 1), EscapePieces(ms[0].key, st.escapeSlashes), [], Ws(st, [SPACE]),
                Layout(lib, st, ms[0].value, level + 1), LineEnd(st, |ms| == 1, level))]
         + LayoutMembers(lib, st, ms[1..], level)
  }

  lemma ScalarWritten(lib: Libc, st: Style, v: Json, level: nat)
    requires !v.Array? && !v.Object?
    ensures Written(Layout(lib, st, v, level)) == Print(lib, st, v, level)
  {
    match v
    case Null =>
    case Boolean(b) =>
    case Number(x) =>
    case Str(chars) => StringWritten(chars, st.escapeSlashes);
  }

  lemma StringWritten(chars: seq<byte>, escapeSlashes: bool)
    ensures Written(StringWord(EscapePieces(chars, escapeSlashes))) == Quoted(chars, escapeSlashes)
  {
    EscapePiecesAre(chars, escapeSlashes);
  }

  lemma {:induction false} LayoutWritten(lib: Libc, st: Style, v: Json, level: nat)
    ensures Written(Layout(lib, st, v, level)) == Print(lib, st, v, level)
    decreases v
  {
    match v
    case Array(items) => ArrayWritten(lib, st, v, items, level);
    case Object(ms) => ObjectWritten(lib, st, v, ms, level);
    case _ => ScalarWritten(lib, st, v, level);
  }

  lemma {:induction false} ArrayWritten(lib: Libc, st: Style, v: Json, items: seq<Json>, level: nat)
    requires v == Array(items)
    ensures Written(ArrayWord(LayoutItems(lib, st, items, level), [])) == Print(lib, st, v, level)
    decreases items, 1
  {
    var es, list := LayoutItems(lib, st, items, level), PrintItems(lib, st, items, level);
    if items != [] {
      ItemsWritten(lib, st, items, level);
    }
    ArrayWordText(es, WrittenElements(es));
    ArrayText(lib, st, v, items, list, WrittenElements(es), level,
              [OPEN_BRACKET] + (WrittenElements(es) + ([] + [CLOSE_BRACKET])));
  }

  lemma ArrayWordText(es: seq<Element>, inner: seq<byte>)
    requires inner == WrittenElements(es)
    ensures Written(ArrayWord(es, [])) == [OPEN_BRACKET] + (inner + ([] + [CLOSE_BRACKET]))
  {
  }

  lemma ArrayText(lib: Libc, st: Style, v: Json, items: seq<Json>, list: seq<byte>, inner: seq<byte>, level: nat,
                  t: seq<byte>)
    requires v == Array(items) && list == PrintItems(lib, st, items, level)
    requires inner == if items == [] then [] else Ws(st, [NEWLINE]) + list + Ws(st, Indent(level))
    requires t == [OPEN_BRACKET] + (inner + ([] + [CLOSE_BRACKET]))
    ensures Print(lib, st, v, level) == t
  {
    if items == [] {
      EmptyWritten(OPEN_BRACKET, inner, CLOSE_BRACKET, t);
    } else {
      ArrayPrinted(lib, st, v, items, list, level);
      ListWritten(st, OPEN_BRACKET, inner, list, level, CLOSE_BRACKET, t);
    }
  }

  lemma {:induction false} ObjectWritten(lib: Libc, st: Style, v: Json, ms: seq<Member<Json>>, level: nat)
    requires v == Object(ms)
    ensures Written(ObjectWord(LayoutMembers(lib, st, ms, level), [])) == Print(lib, st, v, level)
    decreases ms, 1
  {
    var fs, list := LayoutMembers(lib, st, ms, level), PrintMembers(lib, st, ms, level);
    if ms != [] {
      MembersWritten(lib, st, ms, level);
    }
    ObjectWordText(fs, WrittenFields(fs));
    ObjectText(lib, st, v, ms, list, WrittenFields(fs), level,
               [OPEN_BRACE] + (WrittenFields(fs) + ([] + [CLOSE_BRACE])));
  }

  lemma ObjectWordText(fs: seq<Field>, inner: seq<byte>)
    requires inner == WrittenFields(fs)
    ensures Written(ObjectWord(fs, [])) == [OPEN_BRACE] + (inner + ([] + [CLOSE_BRACE]))
  {
  }

  lemma ObjectText(lib: Libc, st: Style, v: Json, ms: seq<Member<Json>>, list: seq<byte>, inner: seq<byte>, level: nat,
                   t: seq<byte>)
    requires v == Object(ms) && list == PrintMembers(lib, st, ms, level)
    requires inner == if ms == [] then [] else Ws(st, [NEWLINE]) + list + Ws(st, Indent(level))
    requires t == [OPEN_BRACE] + (inner + ([] + [CLOSE_BRACE]))
    ensures Print(lib, st, v, level) == t
  {
    if ms == [] {
      EmptyWritten(OPEN_BRACE, inner, CLOSE_BRACE, t);
    } else {
      ObjectPrinted(lib, st, v, ms, list, level);
      ListWritten(st, OPEN_BRACE, inner, list, level, CLOSE_BRACE, t);
    }
  }

  lemma EmptyWritten(open: byte, inner: seq<byte>, close: byte, t: seq<byte>)
    requires inner == [] && t == [open] + (inner + ([] + [close]))
    ensures t == [open, close]
  {
  }

  lemma ListWritten(st: Style, open: byte, inner: seq<byte>, list: seq<byte>, level: nat, close: byte, t: seq<byte>)
    requires inner == Ws(st, [NEWLINE]) + list + Ws(st, Indent(level)) && t == [open] + (inner + ([] + [close]))
    ensures t == Listed(st, open, list, level, close)
  {
    var newline, indent := Ws(st, [NEWLINE]), Ws(st, Indent(level));
    assert [] + [close] == [close];
    Regroup([open], newline + list + indent, [close]);
    Regroup([open], newline + list, indent);
    Regroup([open], newline, list);
  }

  /** One element as it is printed and as the grammar cuts it: the line end moves from behind it to in front of the
      next one. */
  lemma ElementWritten(newline: seq<byte>, indent: seq<byte>, t: seq<byte>, end: seq<byte>, rest: seq<byte>)
    ensures newline + indent + t + (newline + end) + [] == newline + (indent + t + ([] + newline + [])) + end
    ensures newline + indent + t + [] + ([COMMA] + (newline + rest + end))
            == newline + (indent + t + ([COMMA] + newline + rest)) + end
  {
  }

  lemma {:induction false} ItemsWritten(lib: Libc, st: Style, items: seq<Json>, level: nat)
    requires items != []
    ensures WrittenElements(LayoutItems(lib, st, items, level))
            == Ws(st, [NEWLINE]) + PrintItems(lib, st, items, level) + Ws(st, Indent(level))
    decreases items, 0
  {
    var es, others := LayoutItems(lib, st, items, level), LayoutItems(lib, st, items[1..], level);
    LayoutWritten(lib, st, items[0], level + 1);
    assert es[1..] == others;
    ElementWritten(Ws(st, [NEWLINE]), Ws(st, Indent(level + 1)), Print(lib, st, items[0], level + 1),
                   Ws(st, Indent(level)), PrintItems(lib, st, items[1..], level));
    if |items| > 1 {
      ItemsWritten(lib, st, items[1..], level);
    }
  }

  lemma {:induction false} MembersWritten(lib: Libc, st: Style, ms: seq<Member<Json>>, level: nat)
    requires ms != []
    ensures WrittenFields(LayoutMembers(lib, st, ms, level))
            == Ws(st, [NEWLINE]) + PrintMembers(lib, st, ms, level) + Ws(st, Indent(level))
    decreases ms, 0
  {
    var fs, others := LayoutMembers(lib, st, ms, level), LayoutMembers(lib, st, ms[1..], level);
    var key, value := PrintKey(st, ms[0].key), Print(lib, st, ms[0].value, level + 1);
    LayoutWritten(lib, st, ms[0].value, level + 1);
    assert fs[1..] == others;
    KeyWritten(st, fs[0], ms[0].key);
    Regroup(Ws(st, Indent(level + 1)), key, value);
    ElementWritten(Ws(st, [NEWLINE]), Ws(st, Indent(level + 1)), key + value, Ws(st, Indent(level)),
                   PrintMembers(lib, st, ms[1..], level));
    if |ms| > 1 {
      MembersWritten(lib, st, ms[1..], level);
    }
  }

  lemma KeyWritten(st: Style, f: Field, key: CString)
    requires f.name == EscapePieces(key, st.escapeSlashes) && f.left == [] && f.right == Ws(st, [SPACE])
    ensures WrittenName(f) == PrintKey(st, key)
  {
    EscapePiecesAre(key, st.escapeSlashes);
    assert StringText(f.name) + [] == StringText(f.name);
  }

  lemma LinesWhite(st: Style, last: bool, level: nat)
    ensures AllWhite(LineStart(st, level)) && AllWhite(LineEnd(st, last, level)) && AllWhite(Ws(st, [SPACE]))
  {
    IndentIsSpace(level);
  }

  lemma {:induction false} LayoutDenotes(lib: Libc, st: Style, v: Json, level: nat)
    requires Sound(lib, v)
    ensures Denotes(Some(lib), Layout(lib, st, v, level), v)
    decreases v
  {
    match v
    case Str(chars) => EscapePiecesAre(chars, st.escapeSlashes);
    case Array(items) => ItemsDenote(lib, st, items, level);
    case Object(ms) => MembersDenote(lib, st, ms, level);
    case _ =>
  }

  lemma {:induction false} ItemsDenote(lib: Libc, st: Style, items: seq<Json>, level: nat)
    requires SoundItems(lib, items)
    ensures ElementsDenote(Some(lib), LayoutItems(lib, st, items, level), items)
    decreases items
  {
    if items != [] {
      LayoutDenotes(lib, st, items[0], level + 1);
      ItemsDenote(lib, st, items[1..], level);
      LinesWhite(st, |items| == 1, level);
      LinesWhite(st, true, level + 1);
      assert LayoutItems(lib, st, items, level)[1..] == LayoutItems(lib, st, items[1..], level);
    }
  }

  lemma {:induction false} MembersDenote(lib: Libc, st: Style, ms: seq<Member<Json>>, level: nat)
    requires SoundMembers(lib, ms)
    ensures FieldsDenote(Some(lib), LayoutMembers(lib, st, ms, level), ms)
    decreases ms
  {
    if ms != [] {
      LayoutDenotes(lib, st, ms[0].value, level + 1);
      MembersDenote(lib, st, ms[1..], level);
      LinesWhite(st, |ms| == 1, level);
      LinesWhite(st, true, level + 1);
      EscapePiecesAre(ms[0].key, st.escapeSlashes);
      assert LayoutMembers(lib, st, ms, level)[1..] == LayoutMembers(lib, st, ms[1..], level);
    }
  }

  /** Printed text denotes the value it was printed from. */
  lemma PrintDenotes(lib: Libc, st: Style, v: Json, level: nat)
    requires Sound(lib, v)
    ensures TextDenotes(lib, Print(lib, st, v, level), v)
  {
    LayoutWritten(lib, st, v, level);
    LayoutDenotes(lib, st, v, level);
  }

  /** Wherever the text of `v` stands, it is read back as far as the nesting limit allows. */
  ghost predicate Reads(lib: Libc, s: seq<byte>, t: seq<byte>, v: Json, nesting: nat)
    requires Terminated(s)
  {
    forall i: nat, j: nat :: TextAt(s, i, j, t) && Ends(s, j, v)
              ==> ParseValue(lib, s, i, nesting) == Outcome(Fits(nesting, Height(v)), v, j)
  }

  /** The text of a value is read back wherever it stands, with the cursor right after it, if and only if the
      value fits the nesting limit. */
  lemma ValueReads(lib: Libc, st: Style, s: seq<byte>, v: Json, level: nat, nesting: nat)
    requires Terminated(s) && Sound(lib, v)
    ensures Reads(lib, s, Print(lib, st, v, level), v, nesting)
  {
    var t := Print(lib, st, v, level);
    PrintDenotes(lib, st, v, level);
    forall i: nat, j: nat | TextAt(s, i, j, t) && Ends(s, j, v)
      ensures ParseValue(lib, s, i, nesting) == Outcome(Fits(nesting, Height(v)), v, j)
    {
      SyntaxReads.SyntaxReads(lib, s, i, j, t, v, nesting);
    }
  }
}
