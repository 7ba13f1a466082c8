/**
 Texts that denote JSON values, spelled out with character literals: sections 2 to 7 of RFC 8259, and what the
 code takes beyond them, namely all white space of the C locale and a comma behind the last element.
 */
module JsonSyntax {
  import opened AssocLists
  import opened Bytes
  import opened JsonTrees
  import opened Options
  import opened Utf8

  /** A character as a byte. */
  function Char(c: char): byte
    requires c as int < 128
  {
    c as int
  }

  predicate White(c: byte) {
    || c == Char(' ') || c == Char('\t') || c == Char('\n') || c == Char('\r')
    || c == 11 || c == 12 // '\v' and '\f'
  }

  ghost predicate AllWhite(w: seq<byte>) {
    forall k :: 0 <= k < |w| ==> White(w[k])
  }

  lemma WhiteExactly(c: byte)
    ensures White(c) <==> IsSpace(c)
  {
  }

  // ----- strings -----

  /** A hex digit, written as a small or a capital letter where it is one. */
  datatype AnyHexChar = HexChar(value: nat, capital: bool)

  type HexChar = h: AnyHexChar | h.value < 16 witness HexChar(0, false)

  function HexCharText(h: HexChar): byte {
    (if h.capital then "0123456789ABCDEF"[h.value] else "0123456789abcdef"[h.value]) as int
  }

  /** The four digits of a `\u` escape. */
  datatype Hex = Hex(a: HexChar, b: HexChar, c: HexChar, d: HexChar)

  function CodeUnit(h: Hex): (n: nat)
    ensures n < 0x10000
  {
    h.a.value * 0x1000 + h.b.value * 0x100 + h.c.value * 0x10 + h.d.value
  }

  function HexText(h: Hex): (t: seq<byte>)
    ensures |t| == 6
  {
    [Char('\\'), Char('u'), HexCharText(h.a), HexCharText(h.b), HexCharText(h.c), HexCharText(h.d)]
  }

  /** Section 7 of RFC 8259: the escapes of two characters. */
  function ShortMeaning(letter: byte): Option<byte> {
    if letter == Char('"') || letter == Char('\\') || letter == Char('/') then Some(letter)
    else if letter == Char('b') then Some(0x08)
    else if letter == Char('f') then Some(0x0C)
    else if letter == Char('n') then Some(0x0A)
    else if letter == Char('r') then Some(0x0D)
    else if letter == Char('t') then Some(0x09)
    else None
  }

  /** One character of a string as it is written: a byte that stands for itself, an escape of two characters, a `\u`
      escape, or the two escapes of a surrogate pair (section 7 of RFC 8259, section 2.2 of RFC 2781). */
  datatype AnyPiece =
    | Plain(c: byte)
    | Short(letter: byte)
    | Unit(hex: Hex)
    | Pair(lead: Hex, trail: Hex)

  predicate GoodPair(lead: Hex, trail: Hex) {
    0xD800 <= CodeUnit(lead) <= 0xDBFF && 0xDC00 <= CodeUnit(trail) <= 0xDFFF
  }

  function PairValue(lead: Hex, trail: Hex): nat
    requires GoodPair(lead, trail)
  {
    0x10000 + (CodeUnit(lead) - 0xD800) * 0x400 + (CodeUnit(trail) - 0xDC00)
  }

  predicate GoodPiece(p: AnyPiece) {
    match p
    case Plain(c) => c >= 0x20 && c != Char('"') && c != Char('\\')
    case Short(letter) => ShortMeaning(letter).Some?
    case Unit(h) => !(0xD800 <= CodeUnit(h) <= 0xDFFF)
    case Pair(lead, trail) => GoodPair(lead, trail)
  }

  type Piece = p: AnyPiece | GoodPiece(p) witness Plain(Char(' '))

  function PieceText(p: Piece): (t: seq<byte>)
    ensures 1 <= |t| <= 12
  {
    match p
    case Plain(c) => [c]
    case Short(letter) => [Char('\\'), letter]
    case Unit(h) => HexText(h)
    case Pair(lead, trail) => HexText(lead) + HexText(trail)
  }

  function PieceBytes(p: Piece): seq<byte> {
    match p
    case Plain(c) => [c]
    case Short(letter) => [ShortMeaning(letter).value]
    case Unit(h) => Encode(CodeUnit(h))
    case Pair(lead, trail) => Encode(PairValue(lead, trail))
  }

  function PiecesText(ps: seq<Piece>): seq<byte> {
    if ps == [] then [] else PieceText(ps[0]) + PiecesText(ps[1..])
  }

  function PiecesBytes(ps: seq<Piece>): seq<byte> {
    if ps == [] then [] else PieceBytes(ps[0]) + PiecesBytes(ps[1..])
  }

  function StringText(ps: seq<Piece>): seq<byte> {
    [Char('"')] + PiecesText(ps) + [Char('"')]
  }

  // ----- numbers -----

  ghost predicate Digits(t: seq<byte>) {
    |t| > 0 && forall k :: 0 <= k < |t| ==> Char('0') <= t[k] <= Char('9')
  }

  /** Section 6 of RFC 8259: a sign, a whole part, a fraction and an exponent. */
  datatype Numeral = Numeral(sign: seq<byte>, whole: seq<byte>, fraction: seq<byte>, exponent: seq<byte>)

  ghost predicate GoodNumeral(n: Numeral) {
    && (n.sign == [] || n.sign == [Char('-')])
    && Digits(n.whole) && (n.whole[0] == Char('0') ==> |n.whole| == 1)
    && (n.fraction == [] || (n.fraction[0] == Char('.') && Digits(n.fraction[1..])))
    && (n.exponent == [] || GoodExponent(n.exponent))
  }

  ghost predicate GoodExponent(t: seq<byte>) {
    && |t| > 1 && (t[0] == Char('e') || t[0] == Char('E'))
    && (if t[1] == Char('+') || t[1] == Char('-') then Digits(t[2..]) else Digits(t[1..]))
  }

  function NumeralText(n: Numeral): seq<byte> {
    n.sign + n.whole + n.fraction + n.exponent
  }

  /** A zero without a fraction and with an exponent, such as `0e1`. */
  predicate ZeroWithExponent(n: Numeral) {
    n.whole == [Char('0')] && n.fraction == [] && n.exponent != []
  }

  /** `strtod` reads all of `t` as `x`, whatever stands behind it that is no part of a number. */
  ghost predicate StrtodReads(lib: Libc, t: seq<byte>, x: real) {
    forall rest: seq<byte> :: |rest| > 0 && !ContinuesNumber(rest[0])
                              ==> lib.strtod(t + rest) == NumberRead(Some(x), |t|)
  }

  /** A number of RFC 8259 that is no zero with an exponent, or the printed form of a number. */
  ghost predicate NumberText(lib: Libc, t: seq<byte>, x: real) {
    || (StrtodReads(lib, t, x) && exists n :: GoodNumeral(n) && !ZeroWithExponent(n) && t == NumeralText(n))
    || (ReadsBack(lib, x) && t == lib.format(x))
  }

  // ----- values -----

  /** A text cut up as the grammar says. The `end` of a list is what stands between the last element and the closing
      bracket: white space in an empty list, and otherwise nothing, or a comma and white space. */
  datatype Syntax =
    | NullWord
    | TrueWord
    | FalseWord
    | NumberWord(t: seq<byte>)
    | StringWord(pieces: seq<Piece>)
    | ArrayWord(elements: seq<Element>, end: seq<byte>)
    | ObjectWord(fields: seq<Field>, end: seq<byte>)

  datatype Element = Element(before: seq<byte>, value: Syntax, after: seq<byte>)

  datatype Field =
    Field(before: seq<byte>, name: seq<Piece>, left: seq<byte>, right: seq<byte>, value: Syntax, after: seq<byte>)

  function Written(d: Syntax): seq<byte> {
    match d
    case NullWord => [Char('n'), Char('u'), Char('l'), Char('l')]
    case TrueWord => [Char('t'), Char('r'), Char('u'), Char('e')]
    case FalseWord => [Char('f'), Char('a'), Char('l'), Char('s'), Char('e')]
    case NumberWord(t) => t
    case StringWord(ps) => StringText(ps)
    case ArrayWord(es, end) => [Char('[')] + (WrittenElements(es) + (end + [Char(']')]))
    case ObjectWord(fs, end) => [Char('{')] + (WrittenFields(fs) + (end + [Char('}')]))
  }

  function WrittenElements(es: seq<Element>): seq<byte> {
    if es == [] then []
    else es[0].before + Written(es[0].value) + es[0].after
         + (if |es| == 1 then [] else [Char(',')] + WrittenElements(es[1..]))
  }

  function WrittenName(f: Field): seq<byte> {
    StringText(f.name) + f.left + [Char(':')] + f.right
  }

  function WrittenFields(fs: seq<Field>): seq<byte> {
    if fs == [] then []
    else fs[0].before + (WrittenName(fs[0]) + Written(fs[0].value)) + fs[0].after
         + (if |fs| == 1 then [] else [Char(',')] + WrittenFields(fs[1..]))
  }

  ghost predicate GoodEnd(end: seq<byte>, empty: bool) {
    if empty then AllWhite(end) else end == [] || (end[0] == Char(',') && AllWhite(end[1..]))
  }

  /** What a cut-up text denotes. Without a library, nothing is asked of a number but how it starts. */
  ghost predicate Denotes(lib: Option<Libc>, d: Syntax, v: Json) {
    match d
    case NullWord => v == Null
    case TrueWord => v == Boolean(true)
    case FalseWord => v == Boolean(false)
    case NumberWord(t) =>
      v.Number? && if lib.Some? then NumberText(lib.value, t, v.x)
                   else t != [] ==> t[0] == Char('-') || Char('0') <= t[0] <= Char('9')
    case StringWord(ps) => v == Str(PiecesBytes(ps))
    case ArrayWord(es, end) => v.Array? && GoodEnd(end, es == []) && ElementsDenote(lib, es, v.items)
    case ObjectWord(fs, end) =>
      v.Object? && GoodEnd(end, fs == []) && DistinctKeys(v.members) && FieldsDenote(lib, fs, v.members)
  }

  ghost predicate ElementsDenote(lib: Option<Libc>, es: seq<Element>, items: seq<Json>) {
    && |es| == |items|
    && (es != [] ==>
          && AllWhite(es[0].before) && AllWhite(es[0].after)
          && Denotes(lib, es[0].value, items[0]) && ElementsDenote(lib, es[1..], items[1..]))
  }

  ghost predicate FieldsDenote(lib: Option<Libc>, fs: seq<Field>, ms: seq<Member<Json>>) {
    && |fs| == |ms|
    && (fs != [] ==>
          && AllWhite(fs[0].before) && AllWhite(fs[0].left) && AllWhite(fs[0].right) && AllWhite(fs[0].after)
          && ms[0].key == PiecesBytes(fs[0].name) && Denotes(lib, fs[0].value, ms[0].value)
          && FieldsDenote(lib, fs[1..], ms[1..]))
  }

  /** The text `t` denotes the value `v`. */
  ghost predicate TextDenotes(lib: Libc, t: seq<byte>, v: Json) {
    exists d :: t == Written(d) && Denotes(Some(lib), d, v)
  }
}
