/** The text of a JSON value: what the serializer writes and what the parser makes of a text. */
module JsonText {
  import opened AssocLists
  import opened Bytes
  import opened JsonTrees
  import opened Options
  import opened StringLaws
  import opened Strings

  const MAX_NESTING: nat := 2048

  datatype Style = Style(pretty: bool, escapeSlashes: bool)

  const NEWLINE: byte := 10
  const SPACE: byte := 32
  const COMMA: byte := 44
  const COLON: byte := 58
  const OPEN_BRACKET: byte := 91
  const CLOSE_BRACKET: byte := 93
  const OPEN_BRACE: byte := 123
  const CLOSE_BRACE: byte := 125

  function TrueToken(): seq<byte> { ['t' as int, 'r' as int, 'u' as int, 'e' as int] }

  function FalseToken(): seq<byte> { ['f' as int, 'a' as int, 'l' as int, 's' as int, 'e' as int] }

  function NullToken(): seq<byte> { ['n' as int, 'u' as int, 'l' as int, 'l' as int] }

  // ----- printing -----

  /** Four spaces a level. */
  function Indent(level: nat): seq<byte> {
    if level == 0 then [] else [SPACE, SPACE, SPACE, SPACE] + Indent(level - 1)
  }

  /** White space that only the pretty form has. */
  function Ws(st: Style, w: seq<byte>): seq<byte> {
    if st.pretty then w else []
  }

  /** The text of a list that is not empty: brackets, and `list` between them. */
  function Listed(st: Style, open: byte, list: seq<byte>, level: nat, close: byte): seq<byte> {
    [open] + Ws(st, [NEWLINE]) + list + Ws(st, Indent(level)) + [close]
  }

  function Print(lib: Libc, st: Style, v: Json, level: nat): seq<byte>
    decreases v
  {
    match v
    case Null => NullToken()
    case Boolean(b) => if b then TrueToken() else FalseToken()
    case Number(x) => lib.format(x)
    case Str(chars) => Quoted(chars, st.escapeSlashes)
    case Array(items) =>
      if items == [] then [OPEN_BRACKET, CLOSE_BRACKET]
      else Listed(st, OPEN_BRACKET, PrintItems(lib, st, items, level), level, CLOSE_BRACKET)
    case Object(ms) =>
      if ms == [] then [OPEN_BRACE, CLOSE_BRACE]
      else Listed(st, OPEN_BRACE, PrintMembers(lib, st, ms, level), level, CLOSE_BRACE)
  }

  lemma ArrayPrinted(lib: Libc, st: Style, v: Json, items: seq<Json>, list: seq<byte>, level: nat)
    requires v == Array(items) && items != [] && list == PrintItems(lib, st, items, level)
    ensures Print(lib, st, v, level) == Listed(st, OPEN_BRACKET, list, level, CLOSE_BRACKET)
  {
  }

  lemma ObjectPrinted(lib: Libc, st: Style, v: Json, ms: seq<Member<Json>>, list: seq<byte>, level: nat)
    requires v == Object(ms) && ms != [] && list == PrintMembers(lib, st, ms, level)
    ensures Print(lib, st, v, level) == Listed(st, OPEN_BRACE, list, level, CLOSE_BRACE)
  {
  }

  /** After an element: a comma unless it is the last, and the end of the line. */
  function Separator(st: Style, last: bool): seq<byte> {
    (if last then [] else [COMMA]) + Ws(st, [NEWLINE])
  }

  function PrintItems(lib: Libc, st: Style, items: seq<Json>, level: nat): seq<byte>
    decreases items
  {
    if items == [] then []
    else Ws(st, Indent(level + 1)) + Print(lib, st, items[0], level + 1)
         + (Separator(st, |items| == 1) + PrintItems(lib, st, items[1..], level))
  }

  function PrintKey(st: Style, key: CString): seq<byte> {
    Quoted(key, st.escapeSlashes) + [COLON] + Ws(st, [SPACE])
  }

  function PrintMembers(lib: Libc, st: Style, ms: seq<Member<Json>>, level: nat): seq<byte>
    decreases ms
  {
    if ms == [] then []
    else Ws(st, Indent(level + 1)) + PrintKey(st, ms[0].key) + Print(lib, st, ms[0].value, level + 1)
         + (Separator(st, |ms| == 1) + PrintMembers(lib, st, ms[1..], level))
  }

  // ----- parsing -----

  /** A value and the cursor after it. */
  datatype Parsed = Parsed(value: Json, next: nat)

  function SkipWs(s: seq<byte>, i: nat): (j: nat)
    requires Terminated(s) && i < |s|
    ensures i <= j < |s| && !IsSpace(s[j])
    decreases |s| - i
  {
    if IsSpace(s[i]) then SkipWs(s, i + 1) else i
  }

  /** `strncmp(token, *string, |token|) == 0` */
  predicate StartsWith(s: seq<byte>, i: nat, token: seq<byte>)
    requires i <= |s|
  {
    |token| <= |s| - i && s[i..i + |token|] == token
  }

  function ParseToken(s: seq<byte>, i: nat, token: seq<byte>, value: Json): (r: Option<Parsed>)
    requires Terminated(s) && i < |s| && 0 !in token
    ensures r.Some? ==> i <= r.value.next < |s|
  {
    if StartsWith(s, i, token) then
      assert i + |token| == |s| ==> s[i..][|token| - 1] == 0 || token == [];
      Some(Parsed(value, i + |token|))
    else None
  }

  function ParseNumber(lib: Libc, s: seq<byte>, i: nat): (r: Option<Parsed>)
    requires Terminated(s) && i < |s|
    ensures r.Some? ==> i <= r.value.next < |s|
  {
    var read := lib.strtod(s[i..]);
    if read.value.None? || !IsDecimal(s[i..i + read.length]) then None
    else Some(Parsed(Number(read.value.value), i + read.length))
  }

  function ParseValue(lib: Libc, s: seq<byte>, i: nat, nesting: nat): (r: Option<Parsed>)
    requires Terminated(s) && i < |s|
    ensures r.Some? ==> i <= r.value.next < |s|
    decreases |s| - i, 2
  {
    if nesting > MAX_NESTING then None
    else
      var j := SkipWs(s, i);
      var c := s[j];
      if c == OPEN_BRACE then ParseObject(lib, s, j, nesting + 1)
      else if c == OPEN_BRACKET then ParseArray(lib, s, j, nesting + 1)
      else if c == QUOTE then
        var d := GetQuoted(s, j);
        if d.None? then None else Some(Parsed(Str(d.value.bytes), d.value.next))
      else if c == 'f' as int || c == 't' as int then
        var t := ParseToken(s, j, TrueToken(), Boolean(true));
        if t.Some? then t else ParseToken(s, j, FalseToken(), Boolean(false))
      else if c == '-' as int || IsDigit(c) then ParseNumber(lib, s, j)
      else if c == 'n' as int then ParseToken(s, j, NullToken(), Null)
      else None
  }

  function ParseArray(lib: Libc, s: seq<byte>, i: nat, nesting: nat): (r: Option<Parsed>)
    requires Terminated(s) && i < |s| && s[i] == OPEN_BRACKET
    ensures r.Some? ==> i < r.value.next < |s|
    decreases |s| - i, 1
  {
    var j := SkipWs(s, i + 1);
    if s[j] == CLOSE_BRACKET then Some(Parsed(Array([]), j + 1))
    else ParseItems(lib, s, j, nesting, [])
  }

  /** What follows an element: the end of the list, a further element, or neither. */
  datatype ListEnd = Broken | Closed(next: nat) | More(next: nat)

  /** The tail of both list loops; a comma before the closing bracket is accepted. */
  function AfterElement(s: seq<byte>, i: nat, close: byte): (e: ListEnd)
    requires Terminated(s) && i < |s| && close != 0
    ensures !e.Broken? ==> i < e.next < |s|
  {
    var j := SkipWs(s, i);
    if s[j] != COMMA then
      if s[j] == close then Closed(j + 1) else Broken
    else
      var k := SkipWs(s, j + 1);
      if s[k] == close then Closed(k + 1) else More(k)
  }

  /** The element loop, with the elements `acc` behind it. */
  function ParseItems(lib: Libc, s: seq<byte>, i: nat, nesting: nat, acc: seq<Json>): (r: Option<Parsed>)
    requires Terminated(s) && i < |s|
    ensures r.Some? ==> i < r.value.next < |s|
    decreases |s| - i, 3
  {
    if s[i] == 0 then None
    else
      var v := ParseValue(lib, s, i, nesting);
      if v.None? then None
      else
        var items := acc + [v.value.value];
        match AfterElement(s, v.value.next, CLOSE_BRACKET)
        case Broken => None
        case Closed(next) => Some(Parsed(Array(items), next))
        case More(next) => ParseItems(lib, s, next, nesting, items)
  }

  function ParseObject(lib: Libc, s: seq<byte>, i: nat, nesting: nat): (r: Option<Parsed>)
    requires Terminated(s) && i < |s| && s[i] == OPEN_BRACE
    ensures r.Some? ==> i < r.value.next < |s|
    decreases |s| - i, 1
  {
    var j := SkipWs(s, i + 1);
    if s[j] == CLOSE_BRACE then Some(Parsed(Object([]), j + 1))
    else ParseMembers(lib, s, j, nesting, [])
  }

  /** A name that is a C string, and the cursor after the colon. */
  function ParseKey(s: seq<byte>, i: nat): (d: Option<Decoded>)
    requires Terminated(s) && i < |s|
    ensures d.Some? ==> i < d.value.next < |s| && 0 !in d.value.bytes
  {
    var d := GetQuoted(s, i);
    if d.None? || 0 in d.value.bytes then None
    else
      var j := SkipWs(s, d.value.next);
      if s[j] != COLON then None else Some(Decoded(d.value.bytes, j + 1))
  }

  datatype ParsedMember = ParsedMember(member: Member<Json>, next: nat)

  /** A name, the colon and a value. */
  function ParseMember(lib: Libc, s: seq<byte>, i: nat, nesting: nat): (m: Option<ParsedMember>)
    requires Terminated(s) && i < |s|
    ensures m.Some? ==> i < m.value.next < |s|
    decreases |s| - i, 2
  {
    var key := ParseKey(s, i);
    if key.None? then None
    else
      var v := ParseValue(lib, s, key.value.next, nesting);
      if v.None? then None else Some(ParsedMember(Member(key.value.bytes, v.value.value), v.value.next))
  }

  /** The member loop, with the members `acc` behind it. */
  function ParseMembers(lib: Libc, s: seq<byte>, i: nat, nesting: nat, acc: seq<Member<Json>>): (r: Option<Parsed>)
    requires Terminated(s) && i < |s|
    ensures r.Some? ==> i < r.value.next < |s|
    decreases |s| - i, 3
  {
    if s[i] == 0 then None
    else
      var m := ParseMember(lib, s, i, nesting);
      if m.None? || HasKey(acc, m.value.member.key) then None
      else
        var ms := acc + [m.value.member];
        match AfterElement(s, m.value.next, CLOSE_BRACE)
        case Broken => None
        case Closed(next) => Some(Parsed(Object(ms), next))
        case More(next) => ParseMembers(lib, s, next, nesting, ms)
  }

  /** `json_parse_string`: a UTF-8 byte order mark is skipped, and text after the first value is ignored. */
  function ParseString(lib: Libc, s: seq<byte>): Option<Parsed>
    requires Terminated(s)
  {
    var start := if s[0] == 0xEF && s[1] == 0xBB && s[2] == 0xBF then 3 else 0;
    ParseValue(lib, s, start, 0)
  }
}
