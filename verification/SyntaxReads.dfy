/** Every text that denotes a value is read as that value, as far as the nesting limit allows. */
module SyntaxReads {
  import opened AssocLists
  import opened Bytes
  import opened JsonSyntax
  import opened JsonText
  import opened JsonTrees
  import opened Options
  import opened ParserSteps
  import opened StringLaws
  import opened Strings
  import opened StringSpelling

  lemma WhiteSkipped(s: seq<byte>, i: nat, j: nat, w: seq<byte>)
    requires Terminated(s) && Has(s, i, w) && j == i + |w| < |s| && AllWhite(w)
    ensures SkipWs(s, i) == SkipWs(s, j)
  {
    WsSkipped(s, i, j, w);
  }

  // ----- numbers -----

  ghost predicate WithoutX(t: seq<byte>) {
    forall k :: 0 <= k < |t| ==> t[k] != Char('x') && t[k] != Char('X')
  }

  lemma ExponentWithoutX(t: seq<byte>)
    requires GoodExponent(t)
    ensures WithoutX(t)
  {
    var signed := t[1] == Char('+') || t[1] == Char('-');
    forall k | 0 <= k < |t| ensures t[k] != Char('x') && t[k] != Char('X') {
      assert k >= 2 ==> t[k] == if signed then t[2..][k - 2] else t[1..][k - 1];
      assert k == 1 && !signed ==> t[k] == t[1..][0];
    }
  }

  lemma FractionWithoutX(t: seq<byte>)
    requires |t| > 0 && t[0] == Char('.') && Digits(t[1..])
    ensures WithoutX(t)
  {
    forall k | 0 <= k < |t| ensures t[k] != Char('x') && t[k] != Char('X') {
      assert k >= 1 ==> t[k] == t[1..][k - 1];
    }
  }

  lemma NumeralWithoutX(n: Numeral)
    requires GoodNumeral(n)
    ensures WithoutX(NumeralText(n))
  {
    if n.fraction != [] {
      FractionWithoutX(n.fraction);
    }
    if n.exponent != [] {
      ExponentWithoutX(n.exponent);
    }
  }

  /** The text of a number behind its sign. */
  lemma UnsignedHead(n: Numeral, u: seq<byte>)
    requires GoodNumeral(n) && u == n.whole + (n.fraction + n.exponent)
    ensures |u| > 0 && IsDigit(u[0])
    ensures |u| > 1 && u[0] == Char('0') && u[1] != Char('.') <==> ZeroWithExponent(n)
  {
    assert u[0] == n.whole[0];
    if n.whole[0] == Char('0') {
      assert n.whole == [Char('0')];
      assert |u| > 1 ==> u[1] == (n.fraction + n.exponent)[0];
    }
  }

  /** `is_decimal` takes a number of RFC 8259 if and only if it is no zero with an exponent. */
  lemma NumeralDecimal(n: Numeral, t: seq<byte>)
    requires GoodNumeral(n) && t == NumeralText(n)
    ensures |t| > 0 && (t[0] == Char('-') || IsDigit(t[0]))
    ensures IsDecimal(t) <==> !ZeroWithExponent(n)
  {
    var u := n.whole + (n.fraction + n.exponent);
    UnsignedHead(n, u);
    NumeralWithoutX(n);
    assert t == n.sign + u;
  }

  /** What the parser needs of the text of a number. */
  ghost predicate Acceptable(lib: Libc, t: seq<byte>, x: real) {
    |t| > 0 && (t[0] == Char('-') || IsDigit(t[0])) && IsDecimal(t) && StrtodReads(lib, t, x)
  }

  lemma NumberAcceptable(lib: Libc, t: seq<byte>, x: real)
    requires NumberText(lib, t, x)
    ensures Acceptable(lib, t, x)
  {
    if n :| GoodNumeral(n) && !ZeroWithExponent(n) && t == NumeralText(n) && StrtodReads(lib, t, x) {
      NumeralDecimal(n, t);
    }
  }

  lemma NumberReads(lib: Libc, s: seq<byte>, i: nat, j: nat, t: seq<byte>, x: real, nesting: nat)
    requires Terminated(s) && TextAt(s, i, j, t) && !ContinuesNumber(s[j]) && nesting <= MAX_NESTING
    requires |t| > 0 && (t[0] == Char('-') || IsDigit(t[0])) && StrtodReads(lib, t, x)
    ensures ParseValue(lib, s, i, nesting) == if IsDecimal(t) then Some(Parsed(Number(x), j)) else None
  {
    HasAt(s, i, t, 0);
    ScalarCases(lib, s, i, nesting);
    NumberParses(lib, s, i, j, t, x);
  }

  lemma NumberParses(lib: Libc, s: seq<byte>, i: nat, j: nat, t: seq<byte>, x: real)
    requires Terminated(s) && TextAt(s, i, j, t) && !ContinuesNumber(s[j]) && StrtodReads(lib, t, x)
    ensures ParseNumber(lib, s, i) == if IsDecimal(t) then Some(Parsed(Number(x), j)) else None
  {
    SliceOut(s, i, j, t);
    var rest := s[j..];
    assert rest[0] == s[j];
    assert lib.strtod(t + rest) == NumberRead(Some(x), |t|);
  }

  lemma SliceOut(s: seq<byte>, i: nat, j: nat, t: seq<byte>)
    requires TextAt(s, i, j, t)
    ensures s[i..] == t + s[j..] && s[i..j] == t
  {
  }

  /** A number of RFC 8259 that `strtod` reads is accepted if and only if it is no zero with an exponent. */
  lemma NumeralReadsExactly(lib: Libc, s: seq<byte>, i: nat, j: nat, n: Numeral, x: real, nesting: nat)
    requires Terminated(s) && TextAt(s, i, j, NumeralText(n)) && !ContinuesNumber(s[j]) && nesting <= 2048
    requires GoodNumeral(n) && StrtodReads(lib, NumeralText(n), x)
    ensures ParseValue(lib, s, i, nesting) == if ZeroWithExponent(n) then None else Some(Parsed(Number(x), j))
  {
    NumeralDecimal(n, NumeralText(n));
    NumberReads(lib, s, i, j, NumeralText(n), x, nesting);
  }

  /** The leading zeros and hexadecimal markers that JSON does not have. */
  ghost predicate Foreign(t: seq<byte>) {
    || (|t| > 1 && t[0] == Char('0') && t[1] != Char('.'))
    || (|t| > 2 && t[0] == Char('-') && t[1] == Char('0') && t[2] != Char('.'))
    || exists k :: 0 <= k < |t| && (t[k] == Char('x') || t[k] == Char('X'))
  }

  /** Whatever `strtod` reads from a sign or a digit on is accepted, unless it is foreign to JSON. */
  lemma NumbersTaken(lib: Libc, s: seq<byte>, i: nat, j: nat, t: seq<byte>, x: real, nesting: nat)
    requires Terminated(s) && TextAt(s, i, j, t) && !ContinuesNumber(s[j]) && nesting <= 2048 && StrtodReads(lib, t, x)
    requires |t| > 0 && (t[0] == Char('-') || Char('0') <= t[0] <= Char('9'))
    ensures ParseValue(lib, s, i, nesting) == if Foreign(t) then None else Some(Parsed(Number(x), j))
  {
    NumberReads(lib, s, i, j, t, x, nesting);
  }

  // ----- words -----

  lemma NullReads(lib: Libc, s: seq<byte>, i: nat, nesting: nat)
    requires Terminated(s) && Has(s, i, Written(NullWord)) && nesting <= MAX_NESTING
    ensures ParseValue(lib, s, i, nesting) == Some(Parsed(Null, i + 4))
  {
    HasAt(s, i, NullToken(), 0);
    ScalarCases(lib, s, i, nesting);
    TokenReads(s, i, NullToken(), Null);
  }

  lemma TrueReads(lib: Libc, s: seq<byte>, i: nat, nesting: nat)
    requires Terminated(s) && Has(s, i, Written(TrueWord)) && nesting <= MAX_NESTING
    ensures ParseValue(lib, s, i, nesting) == Some(Parsed(Boolean(true), i + 4))
  {
    HasAt(s, i, TrueToken(), 0);
    ScalarCases(lib, s, i, nesting);
    TokenReads(s, i, TrueToken(), Boolean(true));
  }

  lemma FalseReads(lib: Libc, s: seq<byte>, i: nat, nesting: nat)
    requires Terminated(s) && Has(s, i, Written(FalseWord)) && nesting <= MAX_NESTING
    ensures ParseValue(lib, s, i, nesting) == Some(Parsed(Boolean(false), i + 5))
  {
    HasAt(s, i, FalseToken(), 0);
    ScalarCases(lib, s, i, nesting);
    if StartsWith(s, i, TrueToken()) {
      HasAt(s, i, TrueToken(), 0);
    }
    TokenReads(s, i, FalseToken(), Boolean(false));
  }

  lemma StringWordReads(lib: Libc, s: seq<byte>, i: nat, j: nat, ps: seq<Piece>, nesting: nat)
    requires Terminated(s) && TextAt(s, i, j, StringText(ps)) && nesting <= MAX_NESTING
    ensures ParseValue(lib, s, i, nesting) == Some(Parsed(Str(PiecesBytes(ps)), j))
  {
    StringReads(s, i, j, ps);
    ScalarCases(lib, s, i, nesting);
  }

  // ----- lists -----

  lemma WordStarts(lib: Libc, d: Syntax, v: Json)
    requires Denotes(Some(lib), d, v)
    ensures |Written(d)| > 0 && Starter(Written(d)[0])
  {
    match d
    case NumberWord(t) => NumberAcceptable(lib, t, v.x);
    case _ =>
  }

  /** Bytes that can follow an element and the white space behind it. */
  predicate Stops(c: byte) {
    c == COMMA || c == CLOSE_BRACKET || c == CLOSE_BRACE
  }

  /** Where the parts of an element stand: the text `t` between white space, and `rest` behind it. */
  lemma ElementCut(s: seq<byte>, a: nat, j: nat, before: seq<byte>, t: seq<byte>, after: seq<byte>, rest: seq<byte>)
      returns (p: nat, q: nat, r: nat)
    requires Terminated(s) && TextAt(s, a, j, before + t + after + rest) && AllWhite(before) && AllWhite(after)
    requires |t| > 0 && Starter(t[0]) && |rest| > 0 && Stops(rest[0])
    ensures SkipWs(s, a) == p < q <= r < |s| && Starter(s[p]) && TextAt(s, p, q, t) && !ContinuesNumber(s[q])
    ensures SkipWs(s, q) == r && TextAt(s, r, j, rest)
  {
    p, q, r := a + |before|, a + |before| + |t|, a + |before| + |t| + |after|;
    HasSplit(s, a, before + t + after, rest);
    HasThree(s, a, before, t, after);
    HasAt(s, p, t, 0);
    HasAt(s, r, rest, 0);
    WhiteSkipped(s, a, p, before);
    WhiteSkipped(s, q, r, after);
    if q < r {
      HasAt(s, q, after, 0);
    }
  }

  /** The end of a list, with or without a comma behind the last element. */
  lemma EndReads(s: seq<byte>, q: nat, r: nat, j: nat, end: seq<byte>, close: byte)
    requires Terminated(s) && q < |s| && SkipWs(s, q) == r && TextAt(s, r, j, end + [close])
    requires GoodEnd(end, false) && (close == CLOSE_BRACKET || close == CLOSE_BRACE)
    ensures AfterElement(s, q, close) == Closed(j)
  {
    HasSplit(s, r, end, [close]);
    HasAt(s, j - 1, [close], 0);
    if end == [] {
      AfterLast(s, q, r, close);
    } else {
      HasAt(s, r, end, 0);
      assert [end[0]] + end[1..] == end;
      HasSplit(s, r, [end[0]], end[1..]);
      WhiteSkipped(s, r + 1, j - 1, end[1..]);
      AfterTrailingComma(s, q, r, j - 1, close);
    }
  }

  /** A bracket or a comma, and what stands behind it. */
  lemma OpeningCut(s: seq<byte>, i: nat, j: nat, open: byte, rest: seq<byte>)
    requires TextAt(s, i, j, [open] + rest)
    ensures s[i] == open && TextAt(s, i + 1, j, rest)
  {
    HasSplit(s, i, [open], rest);
    HasAt(s, i, [open], 0);
  }

  /** One element of a list, with the white space around it. */
  datatype Cell = Cell(before: seq<byte>, text: seq<byte>, after: seq<byte>)

  ghost predicate GoodCell(c: Cell) {
    AllWhite(c.before) && AllWhite(c.after) && |c.text| > 0 && Starter(c.text[0])
  }

  ghost predicate GoodCells(cells: seq<Cell>) {
    forall k :: 0 <= k < |cells| ==> GoodCell(cells[k])
  }

  ghost function CellsText(cells: seq<Cell>): seq<byte> {
    if cells == [] then []
    else cells[0].before + cells[0].text + cells[0].after
         + (if |cells| == 1 then [] else [COMMA] + CellsText(cells[1..]))
  }

  /** What stands behind the first element of a list and the white space after it. */
  ghost function CellsRest(cells: seq<Cell>, end: seq<byte>, close: byte): seq<byte>
    requires cells != []
  {
    if |cells| == 1 then end + [close] else [COMMA] + (CellsText(cells[1..]) + (end + [close]))
  }

  lemma CellsStep(cells: seq<Cell>, end: seq<byte>, close: byte)
    requires cells != []
    ensures CellsText(cells) + (end + [close])
            == cells[0].before + cells[0].text + cells[0].after + CellsRest(cells, end, close)
  {
    var head := cells[0].before + cells[0].text + cells[0].after;
    if |cells| == 1 {
      assert head + [] == head;
    } else {
      Regroup(head, [COMMA] + CellsText(cells[1..]), end + [close]);
      Regroup([COMMA], CellsText(cells[1..]), end + [close]);
    }
  }

  /** A list in a buffer: its elements, what stands behind the last one, the closing bracket, and the position behind
      that. */
  datatype List = List(cells: seq<Cell>, end: seq<byte>, close: byte, j: nat)

  /** The elements from `n` on stand at `a`. */
  ghost predicate Laid(s: seq<byte>, l: List, n: nat, a: nat) {
    && Terminated(s) && n < |l.cells| && GoodCells(l.cells) && GoodEnd(l.end, false)
    && (l.close == CLOSE_BRACKET || l.close == CLOSE_BRACE)
    && TextAt(s, a, l.j, CellsText(l.cells[n..]) + (l.end + [l.close]))
  }

  /** What follows an element: the end of the list, or the next element. */
  ghost function Follows(last: bool, next: nat): ListEnd {
    if last then Closed(next) else More(next)
  }

  /** Where the texts of a list start and end. */
  datatype Places = Places(starts: seq<nat>, ends: seq<nat>)

  /** Text `n` of the list stands from `p` to `q`. */
  ghost predicate Stands(s: seq<byte>, l: List, n: nat, p: nat, q: nat)
    requires n < |l.cells|
  {
    p < q < |s| && Starter(s[p]) && TextAt(s, p, q, l.cells[n].text) && !ContinuesNumber(s[q])
  }

  /** Text `n + m` of the list stands from `starts[m]` to `ends[m]`, and the loop goes on from there as it should. */
  ghost predicate PlaceOk(s: seq<byte>, l: List, n: nat, places: Places, m: nat)
    requires Terminated(s) && n + m < |l.cells| == n + |places.starts| == n + |places.ends|
  {
    var p, q, last := places.starts[m], places.ends[m], n + m + 1 == |l.cells|;
    && Stands(s, l, n + m, p, q) && l.close != 0
    && AfterElement(s, q, l.close) == Follows(last, if last then l.j else places.starts[m + 1])
  }

  ghost predicate PlacesOk(s: seq<byte>, l: List, n: nat, places: Places)
    requires Terminated(s)
  {
    && n + |places.starts| == n + |places.ends| == |l.cells|
    && forall m :: 0 <= m < |places.starts| ==> PlaceOk(s, l, n, places, m)
  }

  /** What follows the element that ends at `q`: the end of the list, or a comma with the further elements at `r`. */
  ghost predicate GoesOn(s: seq<byte>, l: List, n: nat, q: nat, r: nat)
    requires Terminated(s)
  {
    && q < |s| && l.close != 0
    && (n + 1 == |l.cells| ==> AfterElement(s, q, l.close) == Closed(l.j))
    && (n + 1 < |l.cells| ==> 0 < r < |s| && SkipWs(s, q) == r - 1 && s[r - 1] == COMMA)
  }

  lemma OnePlace(s: seq<byte>, l: List, n: nat, a: nat) returns (p: nat, q: nat, r: nat)
    requires Laid(s, l, n, a)
    ensures a < |s| && p == SkipWs(s, a) && Stands(s, l, n, p, q) && GoesOn(s, l, n, q, r)
    ensures n + 1 < |l.cells| ==> Laid(s, l, n + 1, r)
  {
    var cells, c := l.cells[n..], l.cells[n];
    var rest := CellsRest(cells, l.end, l.close);
    CellsStep(cells, l.end, l.close);
    assert GoodCell(c) && cells[1..] == l.cells[n + 1..];
    p, q, r := ElementCut(s, a, l.j, c.before, c.text, c.after, rest);
    if n + 1 == |l.cells| {
      EndReads(s, q, r, l.j, l.end, l.close);
    } else {
      OpeningCut(s, r, l.j, COMMA, CellsText(cells[1..]) + (l.end + [l.close]));
      r := r + 1;
    }
  }

  lemma {:induction false} AllPlaces(s: seq<byte>, l: List, n: nat, a: nat) returns (places: Places)
    requires Laid(s, l, n, a)
    ensures PlacesOk(s, l, n, places) && a < |s| && places.starts[0] == SkipWs(s, a)
    decreases |l.cells| - n
  {
    var p, q, r := OnePlace(s, l, n, a);
    var others := Places([], []);
    if n + 1 < |l.cells| {
      others := AllPlaces(s, l, n + 1, r);
    }
    places := Places([p] + others.starts, [q] + others.ends);
    PutPlaceFirst(s, l, n, p, q, r, others, places);
  }

  lemma FirstPlace(s: seq<byte>, l: List, n: nat, places: Places)
    requires Terminated(s) && n < |l.cells| && PlacesOk(s, l, n, places)
    requires l.close == CLOSE_BRACKET || l.close == CLOSE_BRACE
    ensures places.starts[0] < |s| && s[places.starts[0]] != l.close
  {
    assert PlaceOk(s, l, n, places, 0);
  }

  lemma GoesOnRight(s: seq<byte>, l: List, n: nat, q: nat, r: nat, others: Places)
    requires Terminated(s) && n < |l.cells| && PlacesOk(s, l, n + 1, others) && GoesOn(s, l, n, q, r)
    requires l.close == CLOSE_BRACKET || l.close == CLOSE_BRACE
    requires n + 1 < |l.cells| ==> others.starts[0] == SkipWs(s, r)
    ensures var last := n + 1 == |l.cells|;
            AfterElement(s, q, l.close) == Follows(last, if last then l.j else others.starts[0])
  {
    if n + 1 < |l.cells| {
      FirstPlace(s, l, n + 1, others);
      AfterComma(s, q, r - 1, others.starts[0], l.close);
    }
  }

  lemma PutPlaceFirst(s: seq<byte>, l: List, n: nat, p: nat, q: nat, r: nat, others: Places, places: Places)
    requires Terminated(s) && n < |l.cells| && PlacesOk(s, l, n + 1, others)
    requires l.close == CLOSE_BRACKET || l.close == CLOSE_BRACE
    requires Stands(s, l, n, p, q) && GoesOn(s, l, n, q, r)
    requires n + 1 < |l.cells| ==> others.starts[0] == SkipWs(s, r)
    requires places == Places([p] + others.starts, [q] + others.ends)
    ensures PlacesOk(s, l, n, places)
  {
    GoesOnRight(s, l, n, q, r, others);
    forall m | 0 <= m < |places.starts| ensures PlaceOk(s, l, n, places, m) {
      if m > 0 {
        assert PlaceOk(s, l, n + 1, others, m - 1);
      }
    }
  }

  /** The parser at `p` gives `v`, or nothing if it does not fit. */
  ghost predicate ValueParses(lib: Libc, s: seq<byte>, p: nat, nesting: nat, v: Json, q: nat)
    requires Terminated(s) && p < |s|
  {
    ParseValue(lib, s, p, nesting) == Outcome(Fits(nesting, Height(v)), v, q)
  }

  /** At `p` stands the name and value of `m`, and its value fits or not. */
  ghost predicate MemberParses(lib: Libc, s: seq<byte>, p: nat, nesting: nat, m: Member<Json>, q: nat)
    requires Terminated(s) && p < |s|
  {
    ParseMember(lib, s, p, nesting) == if Fits(nesting, Height(m.value)) then Some(ParsedMember(m, q)) else None
  }

  /** The element loop at `p` gives the array of `all`, or nothing if one of `rest` does not fit. */
  ghost predicate ItemsParse(lib: Libc, s: seq<byte>, p: nat, nesting: nat, acc: seq<Json>, rest: seq<Json>,
                             all: seq<Json>, j: nat)
    requires Terminated(s) && p < |s|
  {
    ParseItems(lib, s, p, nesting + 1, acc) == Outcome(Fits(nesting, ItemsHeight(rest)), Array(all), j)
  }

  /** The member loop at `p` gives the object of `all`, or nothing if one of `rest` does not fit. */
  ghost predicate MembersParse(lib: Libc, s: seq<byte>, p: nat, nesting: nat, acc: seq<Member<Json>>,
                               rest: seq<Member<Json>>, all: seq<Member<Json>>, j: nat)
    requires Terminated(s) && p < |s|
  {
    ParseMembers(lib, s, p, nesting + 1, acc) == Outcome(Fits(nesting, MembersHeight(rest)), Object(all), j)
  }

  lemma ItemsFit(items: seq<Json>, n: nat, nesting: nat)
    requires n < |items|
    ensures Fits(nesting, ItemsHeight(items[n..])) <==>
            Fits(nesting + 1, Height(items[n])) && (n + 1 == |items| || Fits(nesting, ItemsHeight(items[n + 1..])))
  {
    assert items[n..][1..] == items[n + 1..];
  }

  /** One turn of the element loop at `p`, given what it makes of the element and of the rest. */
  lemma ItemsTurn(lib: Libc, s: seq<byte>, items: seq<Json>, n: nat, acc: seq<Json>, rest: seq<Json>, nesting: nat,
                  p: nat, q: nat, next: nat, j: nat)
    requires Terminated(s) && n < |items| && acc == items[..n] && rest == items[n..]
    requires p < |s| && s[p] != 0 && q < |s|
    requires ValueParses(lib, s, p, nesting + 1, items[n], q)
    requires AfterElement(s, q, CLOSE_BRACKET) == Follows(n + 1 == |items|, next)
    requires n + 1 == |items| ==> next == j
    requires n + 1 < |items| ==>
               next < |s| && ItemsParse(lib, s, next, nesting, acc + [items[n]], items[n + 1..], items, j)
    ensures ItemsParse(lib, s, p, nesting, acc, rest, items, j)
  {
    ItemsFit(items, n, nesting);
    assert n + 1 == |items| ==> acc + [items[n]] == items;
  }

  /** The element loop reads each element where it stands. */
  ghost predicate ItemsKnown(lib: Libc, s: seq<byte>, places: Places, items: seq<Json>, nesting: nat)
    requires Terminated(s)
  {
    && |places.starts| == |places.ends| == |items|
    && forall k :: 0 <= k < |items| ==>
         places.starts[k] < |s| && ValueParses(lib, s, places.starts[k], nesting, items[k], places.ends[k])
  }

  /** Element `n` in its place, and what the loop makes of it. */
  lemma ItemPlaced(lib: Libc, s: seq<byte>, l: List, places: Places, items: seq<Json>, n: nat, nesting: nat)
    requires Terminated(s) && PlacesOk(s, l, 0, places) && n < |l.cells| && ItemsKnown(lib, s, places, items, nesting)
    ensures var p, q, last := places.starts[n], places.ends[n], n + 1 == |items|;
            && p < |s| && s[p] != 0 && q < |s| && l.close != 0
            && ValueParses(lib, s, p, nesting, items[n], q)
            && AfterElement(s, q, l.close) == Follows(last, if last then l.j else places.starts[n + 1])
  {
    assert PlaceOk(s, l, 0, places, n);
    assert ValueParses(lib, s, places.starts[n], nesting, items[n], places.ends[n]);
  }

  /** The element loop from element `n` on reads the rest of the list. */
  lemma {:induction false} ItemsRead(lib: Libc, s: seq<byte>, l: List, places: Places, items: seq<Json>, n: nat,
          acc: seq<Json>, rest: seq<Json>, nesting: nat, p: nat, j: nat)
    requires Terminated(s) && PlacesOk(s, l, 0, places) && l.close == CLOSE_BRACKET
    requires ItemsKnown(lib, s, places, items, nesting + 1)
    requires n < |items| && acc == items[..n] && rest == items[n..] && p == places.starts[n] && j == l.j
    ensures p < |s|
    ensures ItemsParse(lib, s, p, nesting, acc, rest, items, j)
    decreases |items| - n
  {
    var next := if n + 1 == |items| then l.j else places.starts[n + 1];
    ItemPlaced(lib, s, l, places, items, n, nesting + 1);
    if n + 1 < |items| {
      ItemsRead(lib, s, l, places, items, n + 1, acc + [items[n]], items[n + 1..], nesting, next, j);
    }
    ItemsTurn(lib, s, items, n, acc, rest, nesting, p, places.ends[n], next, j);
  }

  lemma MembersFit(ms: seq<Member<Json>>, n: nat, nesting: nat)
    requires n < |ms|
    ensures Fits(nesting, MembersHeight(ms[n..])) <==>
            Fits(nesting + 1, Height(ms[n].value)) && (n + 1 == |ms| || Fits(nesting, MembersHeight(ms[n + 1..])))
  {
    assert ms[n..][1..] == ms[n + 1..];
  }

  lemma NewName(ms: seq<Member<Json>>, n: nat, acc: seq<Member<Json>>)
    requires DistinctKeys(ms) && n < |ms| && acc == ms[..n]
    ensures !HasKey(acc, ms[n].key)
  {
  }

  /** One turn of the member loop at `p`, given what it makes of the name, the value and the rest. */
  lemma MembersTurn(lib: Libc, s: seq<byte>, ms: seq<Member<Json>>, n: nat, acc: seq<Member<Json>>,
                    rest: seq<Member<Json>>, nesting: nat, p: nat, q: nat, next: nat, j: nat)
    requires Terminated(s) && n < |ms| && acc == ms[..n] && rest == ms[n..] && !HasKey(acc, ms[n].key)
    requires p < |s| && s[p] != 0 && q < |s|
    requires MemberParses(lib, s, p, nesting + 1, ms[n], q)
    requires AfterElement(s, q, CLOSE_BRACE) == Follows(n + 1 == |ms|, next)
    requires n + 1 == |ms| ==> next == j
    requires n + 1 < |ms| ==>
               next < |s| && MembersParse(lib, s, next, nesting, acc + [ms[n]], ms[n + 1..], ms, j)
    ensures MembersParse(lib, s, p, nesting, acc, rest, ms, j)
  {
    MembersFit(ms, n, nesting);
    if Fits(nesting + 1, Height(ms[n].value)) {
      MembersCase(lib, s, p, nesting + 1, acc, ms[n], q);
      assert n + 1 == |ms| ==> acc + [ms[n]] == ms;
    }
  }

  /** The member loop reads each member where it stands. */
  ghost predicate MembersKnown(lib: Libc, s: seq<byte>, places: Places, ms: seq<Member<Json>>, nesting: nat)
    requires Terminated(s)
  {
    && |places.starts| == |places.ends| == |ms|
    && forall k :: 0 <= k < |ms| ==>
         places.starts[k] < |s| && MemberParses(lib, s, places.starts[k], nesting, ms[k], places.ends[k])
  }

  /** Member `n` in its place, and what the loop makes of it. */
  lemma MemberPlaced(lib: Libc, s: seq<byte>, l: List, places: Places, ms: seq<Member<Json>>, n: nat,
                     nesting: nat)
    requires Terminated(s) && PlacesOk(s, l, 0, places) && n < |l.cells| && MembersKnown(lib, s, places, ms, nesting)
    ensures var p, q, last := places.starts[n], places.ends[n], n + 1 == |ms|;
            && p < |s| && s[p] != 0 && q < |s| && l.close != 0
            && MemberParses(lib, s, p, nesting, ms[n], q)
            && AfterElement(s, q, l.close) == Follows(last, if last then l.j else places.starts[n + 1])
  {
    assert PlaceOk(s, l, 0, places, n);
    assert MemberParses(lib, s, places.starts[n], nesting, ms[n], places.ends[n]);
  }

  /** The member loop from member `n` on reads the rest of the list. */
  lemma {:induction false} MembersRead(lib: Libc, s: seq<byte>, l: List, places: Places, ms: seq<Member<Json>>,
          n: nat, acc: seq<Member<Json>>, rest: seq<Member<Json>>, nesting: nat, p: nat, j: nat)
    requires Terminated(s) && PlacesOk(s, l, 0, places) && l.close == CLOSE_BRACE
    requires MembersKnown(lib, s, places, ms, nesting + 1) && DistinctKeys(ms)
    requires n < |ms| && acc == ms[..n] && rest == ms[n..] && p == places.starts[n] && j == l.j
    ensures p < |s|
    ensures MembersParse(lib, s, p, nesting, acc, rest, ms, j)
    decreases |ms| - n
  {
    var next := if n + 1 == |ms| then l.j else places.starts[n + 1];
    MemberPlaced(lib, s, l, places, ms, n, nesting + 1);
    NewName(ms, n, acc);
    if n + 1 < |ms| {
      MembersRead(lib, s, l, places, ms, n + 1, acc + [ms[n]], ms[n + 1..], nesting, next, j);
    }
    MembersTurn(lib, s, ms, n, acc, rest, nesting, p, places.ends[n], next, j);
  }

  // ----- values -----

  /** Every text that denotes a value is read where it stands. */
  lemma {:induction false} ValueReads(lib: Libc, s: seq<byte>, i: nat, j: nat, d: Syntax, v: Json, nesting: nat)
    requires Terminated(s) && Denotes(Some(lib), d, v) && TextAt(s, i, j, Written(d)) && Ends(s, j, v)
    ensures ValueParses(lib, s, i, nesting, v, j)
    decreases d
  {
    if nesting <= MAX_NESTING {
      match d
      case ArrayWord(es, end) => ArrayReads(lib, s, i, j, es, end, v.items, nesting);
      case ObjectWord(fs, end) => ObjectReads(lib, s, i, j, fs, end, v.members, nesting);
      case _ => WordReads(lib, s, i, j, d, v, nesting);
    }
  }

  lemma WordReads(lib: Libc, s: seq<byte>, i: nat, j: nat, d: Syntax, v: Json, nesting: nat)
    requires Terminated(s) && Denotes(Some(lib), d, v) && TextAt(s, i, j, Written(d)) && Ends(s, j, v)
    requires !d.ArrayWord? && !d.ObjectWord? && nesting <= MAX_NESTING
    ensures ParseValue(lib, s, i, nesting) == Some(Parsed(v, j))
  {
    match d
    case NullWord => NullReads(lib, s, i, nesting);
    case TrueWord => TrueReads(lib, s, i, nesting);
    case FalseWord => FalseReads(lib, s, i, nesting);
    case NumberWord(t) => NumberWordReads(lib, s, i, j, t, v.x, nesting);
    case StringWord(ps) => StringWordReads(lib, s, i, j, ps, nesting);
  }

  lemma NumberWordReads(lib: Libc, s: seq<byte>, i: nat, j: nat, t: seq<byte>, x: real, nesting: nat)
    requires Terminated(s) && TextAt(s, i, j, t) && !ContinuesNumber(s[j]) && nesting <= MAX_NESTING
    requires NumberText(lib, t, x)
    ensures ParseValue(lib, s, i, nesting) == Some(Parsed(Number(x), j))
  {
    NumberAcceptable(lib, t, x);
    NumberReads(lib, s, i, j, t, x, nesting);
  }

  /** The end of an empty list. */
  lemma EmptyReads(s: seq<byte>, i: nat, j: nat, end: seq<byte>, close: byte)
    requires Terminated(s) && TextAt(s, i, j, end + [close]) && AllWhite(end) && !IsSpace(close)
    ensures i < |s| && SkipWs(s, i) == j - 1 && s[j - 1] == close
  {
    HasSplit(s, i, end, [close]);
    HasAt(s, j - 1, [close], 0);
    WhiteSkipped(s, i, j - 1, end);
  }

  lemma EmptyArrayReads(lib: Libc, s: seq<byte>, i: nat, j: nat, end: seq<byte>, nesting: nat)
    requires Terminated(s) && TextAt(s, i, j, [Char('[')] + (end + [Char(']')])) && AllWhite(end)
    requires nesting <= MAX_NESTING
    ensures ParseValue(lib, s, i, nesting) == Some(Parsed(Array([]), j))
  {
    OpeningCut(s, i, j, Char('['), end + [Char(']')]);
    EmptyReads(s, i + 1, j, end, Char(']'));
    ArrayCase(lib, s, i, SkipWs(s, i + 1), nesting);
  }

  lemma EmptyObjectReads(lib: Libc, s: seq<byte>, i: nat, j: nat, end: seq<byte>, nesting: nat)
    requires Terminated(s) && TextAt(s, i, j, [Char('{')] + (end + [Char('}')])) && AllWhite(end)
    requires nesting <= MAX_NESTING
    ensures ParseValue(lib, s, i, nesting) == Some(Parsed(Object([]), j))
  {
    OpeningCut(s, i, j, Char('{'), end + [Char('}')]);
    EmptyReads(s, i + 1, j, end, Char('}'));
    ObjectCase(lib, s, i, SkipWs(s, i + 1), nesting);
  }

  lemma ListPlaces(s: seq<byte>, a: nat, l: List) returns (places: Places)
    requires Terminated(s) && l.cells != [] && GoodCells(l.cells) && GoodEnd(l.end, false)
    requires l.close == CLOSE_BRACKET || l.close == CLOSE_BRACE
    requires TextAt(s, a, l.j, CellsText(l.cells) + (l.end + [l.close]))
    ensures PlacesOk(s, l, 0, places) && a < |s| && places.starts[0] == SkipWs(s, a) && s[SkipWs(s, a)] != l.close
  {
    assert l.cells[0..] == l.cells;
    places := AllPlaces(s, l, 0, a);
    FirstPlace(s, l, 0, places);
  }

  // ----- arrays -----

  ghost function ElementCells(es: seq<Element>): (cells: seq<Cell>)
    ensures |cells| == |es|
    ensures forall k :: 0 <= k < |es| ==> cells[k] == Cell(es[k].before, Written(es[k].value), es[k].after)
    ensures CellsText(cells) == WrittenElements(es)
  {
    if es == [] then []
    else
      var cells := [Cell(es[0].before, Written(es[0].value), es[0].after)] + ElementCells(es[1..]);
      assert cells[1..] == ElementCells(es[1..]);
      cells
  }

  lemma {:induction false} ElementDenotes(lib: Libc, es: seq<Element>, items: seq<Json>, k: nat)
    requires ElementsDenote(Some(lib), es, items) && k < |es|
    ensures AllWhite(es[k].before) && AllWhite(es[k].after) && Denotes(Some(lib), es[k].value, items[k])
    decreases |es|
  {
    if k > 0 {
      ElementDenotes(lib, es[1..], items[1..], k - 1);
    }
  }

  lemma ElementCellsGood(lib: Libc, es: seq<Element>, items: seq<Json>)
    requires ElementsDenote(Some(lib), es, items)
    ensures GoodCells(ElementCells(es))
  {
    forall k | 0 <= k < |es| ensures GoodCell(ElementCells(es)[k]) {
      ElementDenotes(lib, es, items, k);
      WordStarts(lib, es[k].value, items[k]);
    }
  }

  lemma {:induction false} ArrayReads(lib: Libc, s: seq<byte>, i: nat, j: nat, es: seq<Element>, end: seq<byte>,
                                      items: seq<Json>, nesting: nat)
    requires Terminated(s) && ElementsDenote(Some(lib), es, items) && GoodEnd(end, es == []) && nesting <= MAX_NESTING
    requires TextAt(s, i, j, [Char('[')] + (WrittenElements(es) + (end + [Char(']')])))
    ensures ValueParses(lib, s, i, nesting, Array(items), j)
    decreases es, 1
  {
    if es == [] {
      assert WrittenElements(es) + (end + [Char(']')]) == end + [Char(']')];
      EmptyArrayReads(lib, s, i, j, end, nesting);
    } else {
      OpeningCut(s, i, j, Char('['), WrittenElements(es) + (end + [Char(']')]));
      var l := List(ElementCells(es), end, Char(']'), j);
      ElementCellsGood(lib, es, items);
      var places := ListPlaces(s, i + 1, l);
      ElementsRead(lib, s, l, places, es, items, nesting + 1);
      var k := SkipWs(s, i + 1);
      ItemsRead(lib, s, l, places, items, 0, [], items, nesting, k, j);
      ArrayTail(lib, s, i, j, k, items, nesting);
    }
  }

  lemma {:induction false} ElementsRead(lib: Libc, s: seq<byte>, l: List, places: Places, es: seq<Element>,
                                        items: seq<Json>, nesting: nat)
    requires Terminated(s) && ElementsDenote(Some(lib), es, items) && l.cells == ElementCells(es)
    requires PlacesOk(s, l, 0, places)
    ensures ItemsKnown(lib, s, places, items, nesting)
    decreases es, 0
  {
    forall k | 0 <= k < |items|
      ensures places.starts[k] < |s| && ValueParses(lib, s, places.starts[k], nesting, items[k], places.ends[k])
    {
      assert PlaceOk(s, l, 0, places, k);
      ElementDenotes(lib, es, items, k);
      ValueReads(lib, s, places.starts[k], places.ends[k], es[k].value, items[k], nesting);
    }
  }

  lemma ArrayTail(lib: Libc, s: seq<byte>, i: nat, j: nat, k: nat, items: seq<Json>, nesting: nat)
    requires Terminated(s) && i + 1 < |s| && s[i] == OPEN_BRACKET && k == SkipWs(s, i + 1) && s[k] != CLOSE_BRACKET
    requires ItemsParse(lib, s, k, nesting, [], items, items, j)
    requires nesting <= MAX_NESTING
    ensures ValueParses(lib, s, i, nesting, Array(items), j)
  {
    ArrayCase(lib, s, i, k, nesting);
  }

  // ----- objects -----

  ghost function FieldCells(fs: seq<Field>): (cells: seq<Cell>)
    ensures |cells| == |fs|
    ensures forall k :: 0 <= k < |fs| ==>
              cells[k] == Cell(fs[k].before, WrittenName(fs[k]) + Written(fs[k].value), fs[k].after)
    ensures CellsText(cells) == WrittenFields(fs)
  {
    if fs == [] then []
    else
      var cells := [Cell(fs[0].before, WrittenName(fs[0]) + Written(fs[0].value), fs[0].after)] + FieldCells(fs[1..]);
      assert cells[1..] == FieldCells(fs[1..]);
      cells
  }

  ghost predicate FieldDenotes(lib: Libc, f: Field, member: Member<Json>) {
    && AllWhite(f.before) && AllWhite(f.left) && AllWhite(f.right) && AllWhite(f.after)
    && member.key == PiecesBytes(f.name) && Denotes(Some(lib), f.value, member.value)
  }

  lemma {:induction false} FieldDenotesAt(lib: Libc, fs: seq<Field>, ms: seq<Member<Json>>, k: nat)
    requires FieldsDenote(Some(lib), fs, ms) && k < |fs|
    ensures FieldDenotes(lib, fs[k], ms[k])
    decreases |fs|
  {
    if k > 0 {
      FieldDenotesAt(lib, fs[1..], ms[1..], k - 1);
    }
  }

  lemma FieldCellsGood(lib: Libc, fs: seq<Field>, ms: seq<Member<Json>>)
    requires FieldsDenote(Some(lib), fs, ms)
    ensures GoodCells(FieldCells(fs))
  {
    forall k | 0 <= k < |fs| ensures GoodCell(FieldCells(fs)[k]) {
      FieldDenotesAt(lib, fs, ms, k);
      NameStarts(fs[k], Written(fs[k].value));
    }
  }

  lemma NameStarts(f: Field, t: seq<byte>)
    ensures |WrittenName(f) + t| > 0 && Starter((WrittenName(f) + t)[0])
  {
    assert WrittenName(f)[0] == Char('"');
  }

  lemma {:induction false} ObjectReads(lib: Libc, s: seq<byte>, i: nat, j: nat, fs: seq<Field>, end: seq<byte>,
                                       ms: seq<Member<Json>>, nesting: nat)
    requires Terminated(s) && FieldsDenote(Some(lib), fs, ms) && DistinctKeys(ms) && GoodEnd(end, fs == [])
    requires TextAt(s, i, j, [Char('{')] + (WrittenFields(fs) + (end + [Char('}')]))) && nesting <= MAX_NESTING
    ensures ValueParses(lib, s, i, nesting, Object(ms), j)
    decreases fs, 2
  {
    if fs == [] {
      assert WrittenFields(fs) + (end + [Char('}')]) == end + [Char('}')];
      EmptyObjectReads(lib, s, i, j, end, nesting);
    } else {
      OpeningCut(s, i, j, Char('{'), WrittenFields(fs) + (end + [Char('}')]));
      var l := List(FieldCells(fs), end, Char('}'), j);
      FieldCellsGood(lib, fs, ms);
      var places := ListPlaces(s, i + 1, l);
      FieldsRead(lib, s, l, places, fs, ms, nesting + 1);
      var k := SkipWs(s, i + 1);
      MembersRead(lib, s, l, places, ms, 0, [], ms, nesting, k, j);
      ObjectTail(lib, s, i, j, k, ms, nesting);
    }
  }

  lemma {:induction false} FieldsRead(lib: Libc, s: seq<byte>, l: List, places: Places, fs: seq<Field>,
                                      ms: seq<Member<Json>>, nesting: nat)
    requires Terminated(s) && FieldsDenote(Some(lib), fs, ms) && l.cells == FieldCells(fs)
    requires PlacesOk(s, l, 0, places)
    ensures MembersKnown(lib, s, places, ms, nesting)
    decreases fs, 1
  {
    forall k | 0 <= k < |ms|
      ensures places.starts[k] < |s| && MemberParses(lib, s, places.starts[k], nesting, ms[k], places.ends[k])
    {
      assert PlaceOk(s, l, 0, places, k);
      FieldDenotesAt(lib, fs, ms, k);
      FieldReads(lib, s, places.starts[k], places.ends[k], fs[k], ms[k], nesting);
    }
  }

  lemma ObjectTail(lib: Libc, s: seq<byte>, i: nat, j: nat, k: nat, ms: seq<Member<Json>>, nesting: nat)
    requires Terminated(s) && i + 1 < |s| && s[i] == OPEN_BRACE && k == SkipWs(s, i + 1) && s[k] != CLOSE_BRACE
    requires MembersParse(lib, s, k, nesting, [], ms, ms, j)
    requires nesting <= MAX_NESTING
    ensures ValueParses(lib, s, i, nesting, Object(ms), j)
  {
    ObjectCase(lib, s, i, k, nesting);
  }

  /** A name and the value behind it. */
  lemma {:induction false} FieldReads(lib: Libc, s: seq<byte>, p: nat, q: nat, f: Field, member: Member<Json>,
                                      nesting: nat)
    requires Terminated(s) && FieldDenotes(lib, f, member)
    requires TextAt(s, p, q, WrittenName(f) + Written(f.value)) && !ContinuesNumber(s[q])
    ensures p < |s|
    ensures MemberParses(lib, s, p, nesting, member, q)
    decreases f
  {
    var m, next := NameLies(lib, s, p, q, f, member);
    ValueReads(lib, s, m, q, f.value, member.value, nesting);
    NamedValueReads(lib, s, p, next, m, q, nesting, member);
  }

  lemma NameLies(lib: Libc, s: seq<byte>, p: nat, q: nat, f: Field, member: Member<Json>) returns (m: nat, next: nat)
    requires Terminated(s) && FieldDenotes(lib, f, member) && TextAt(s, p, q, WrittenName(f) + Written(f.value))
    ensures p < |s| && m < |s| && TextAt(s, m, q, Written(f.value))
    ensures next < |s| && ParseKey(s, p) == Some(Decoded(member.key, next)) && SkipWs(s, next) == SkipWs(s, m)
  {
    WordStarts(lib, f.value, member.value);
    m := NameCut(s, p, q, WrittenName(f), Written(f.value));
    next := NameReads(s, p, m, f, member.key);
  }

  lemma NameCut(s: seq<byte>, p: nat, q: nat, name: seq<byte>, t: seq<byte>) returns (m: nat)
    requires TextAt(s, p, q, name + t) && |t| > 0
    ensures TextAt(s, p, m, name) && TextAt(s, m, q, t)
  {
    m := p + |name|;
    HasSplit(s, p, name, t);
  }

  lemma NamedValueReads(lib: Libc, s: seq<byte>, p: nat, next: nat, m: nat, q: nat, nesting: nat,
                        member: Member<Json>)
    requires Terminated(s) && p < |s| && m < |s| && next < |s| && ParseKey(s, p) == Some(Decoded(member.key, next))
    requires SkipWs(s, next) == SkipWs(s, m) && ValueParses(lib, s, m, nesting, member.value, q)
    ensures MemberParses(lib, s, p, nesting, member, q)
  {
    ValueAfterWs(lib, s, next, m, nesting);
    MemberCase(lib, s, p, next, q, nesting, member, Fits(nesting, Height(member.value)));
  }

  /** A name, with white space around the colon. */
  lemma NameReads(s: seq<byte>, p: nat, m: nat, f: Field, key: CString) returns (next: nat)
    requires Terminated(s) && TextAt(s, p, m, WrittenName(f)) && AllWhite(f.left) && AllWhite(f.right)
    requires key == PiecesBytes(f.name)
    ensures next < |s| && ParseKey(s, p) == Some(Decoded(key, next)) && SkipWs(s, next) == SkipWs(s, m)
  {
    var t := StringText(f.name);
    var e := p + |t|;
    var c := e + |f.left|;
    next := c + 1;
    HasSplit(s, p, t + f.left + [Char(':')], f.right);
    HasThree(s, p, t, f.left, [Char(':')]);
    HasAt(s, c, [Char(':')], 0);
    StringReads(s, p, e, f.name);
    WhiteSkipped(s, e, c, f.left);
    WhiteSkipped(s, next, m, f.right);
    ColonReads(s, p, key, e, c);
  }

  lemma ColonReads(s: seq<byte>, p: nat, key: CString, e: nat, c: nat)
    requires Terminated(s) && p < |s| && GetQuoted(s, p) == Some(Decoded(key, e)) && c < |s| && s[c] == Char(':')
    requires SkipWs(s, e) == SkipWs(s, c)
    ensures ParseKey(s, p) == Some(Decoded(key, c + 1))
  {
  }

  // ----- whole texts -----

  /** Every text that denotes a value is read as that value wherever it stands, with the cursor right behind it, if and
      only if the value fits the nesting limit. */
  lemma SyntaxReads(lib: Libc, s: seq<byte>, i: nat, j: nat, t: seq<byte>, v: Json, nesting: nat)
    requires Terminated(s) && TextDenotes(lib, t, v) && TextAt(s, i, j, t) && Ends(s, j, v)
    ensures ParseValue(lib, s, i, nesting) == if nesting + Height(v) <= 2048 then Some(Parsed(v, j)) else None
  {
    var d :| t == Written(d) && Denotes(Some(lib), d, v);
    ValueReads(lib, s, i, j, d, v, nesting);
  }

  /** A text as `json_parse_string` takes it: a byte order mark or none, white space, a text that denotes a value, and
      anything behind it with which a number does not go on. */
  lemma TextParses(lib: Libc, s: seq<byte>, mark: seq<byte>, w: seq<byte>, t: seq<byte>, v: Json, suffix: seq<byte>,
                   j: nat)
    requires (mark == [] || mark == [0xEF, 0xBB, 0xBF]) && AllWhite(w) && TextDenotes(lib, t, v)
    requires Terminated(suffix) && (v.Number? ==> !ContinuesNumber(suffix[0])) && s == mark + w + t + suffix
    requires j == |mark| + |w| + |t|
    ensures Terminated(s)
    ensures ParseString(lib, s) == if Height(v) <= 2048 then Some(Parsed(v, j)) else None
  {
    var start, i := |mark|, |mark| + |w|;
    TextLies(lib, s, mark, w, t, v, suffix, start, i, j);
    StartsBehindMark(lib, s, mark, start);
    SyntaxReads(lib, s, i, j, t, v, 0);
    ValueAfterWs(lib, s, start, i, 0);
  }

  lemma TextLies(lib: Libc, s: seq<byte>, front: seq<byte>, w: seq<byte>, t: seq<byte>, v: Json, suffix: seq<byte>,
                 start: nat, i: nat, j: nat)
    requires AllWhite(w) && TextDenotes(lib, t, v)
    requires Terminated(suffix) && (v.Number? ==> !ContinuesNumber(suffix[0])) && s == front + w + t + suffix
    requires start == |front| && i == start + |w| && j == i + |t|
    ensures Terminated(s) && TextAt(s, i, j, t) && Ends(s, j, v) && SkipWs(s, start) == SkipWs(s, i)
    ensures s[..start] == front && s[start] < 0x80
  {
    var first := TextStarts(lib, t, v);
    assert s[start..i] == w && s[i..j] == t && s[j] == suffix[0] && s[..start] == front;
    WhiteSkipped(s, start, i, w);
    assert s[start] == if w == [] then t[0] else w[0];
    assert w != [] ==> White(w[0]);
  }

  lemma StartsBehindMark(lib: Libc, s: seq<byte>, mark: seq<byte>, start: nat)
    requires Terminated(s) && start < |s| && s[..start] == mark && s[start] < 0x80
    requires mark == [] || mark == [0xEF, 0xBB, 0xBF]
    ensures ParseString(lib, s) == ParseValue(lib, s, start, 0)
  {
    assert mark != [] ==> s[0] == mark[0] && s[1] == mark[1] && s[2] == mark[2];
  }

  lemma TextStarts(lib: Libc, t: seq<byte>, v: Json) returns (first: byte)
    requires TextDenotes(lib, t, v)
    ensures |t| > 0 && t[0] == first && Starter(first)
  {
    var d :| t == Written(d) && Denotes(Some(lib), d, v);
    WordStarts(lib, d, v);
    first := t[0];
  }
}
