/** What the decoder makes of strings that are spelled out by the grammar, and that it takes no other strings. */
module StringSpelling {
  import opened Bytes
  import opened JsonSyntax
  import opened Options
  import opened StringLaws
  import opened Strings
  import opened Utf8

  // ----- hex escapes -----

  lemma HexCharRead(h: HexChar)
    ensures HexValue(HexCharText(h)) == h.value && HexCharText(h) != 0
  {
  }

  /** The escape `h` stands at `i`. */
  lemma HexLies(s: seq<byte>, i: nat, h: Hex)
    requires Terminated(s) && Has(s, i, HexText(h))
    ensures i + 6 < |s| && s[i] == Char('\\') && s[i + 1] == Char('u') && Hex4(s, i + 2) == Some(CodeUnit(h))
  {
    var t := HexText(h);
    HasAt(s, i, t, 0);
    HasAt(s, i, t, 1);
    HasAt(s, i, t, 2);
    HasAt(s, i, t, 3);
    HasAt(s, i, t, 4);
    HasAt(s, i, t, 5);
    HexCharRead(h.a);
    HexCharRead(h.b);
    HexCharRead(h.c);
    HexCharRead(h.d);
  }

  /** However the digits of a code unit that is no surrogate are spelled, the escape gives its encoding. */
  lemma UnitDecodes(s: seq<byte>, i: nat, h: Hex)
    requires Terminated(s) && Has(s, i, HexText(h)) && !(0xD800 <= CodeUnit(h) <= 0xDFFF)
    ensures i + 6 < |s| && s[i + 1] == Char('u')
    ensures ParseUtf16(s, i + 1) == Some(Decoded(Encode(CodeUnit(h)), i + 6))
  {
    HexLies(s, i, h);
    UnitEncoded(s, i + 1, CodeUnit(h));
  }

  lemma UnitEncoded(s: seq<byte>, i: nat, n: nat)
    requires Terminated(s) && i < |s| && s[i] == Char('u') && Hex4(s, i + 1) == Some(n) && Scalar(n)
    ensures ParseUtf16(s, i) == Some(Decoded(Encode(n), i + 5))
  {
    if n >= 0x80 {
      BytesOfIsEncode(n);
    }
  }

  /** However the digits of a surrogate pair are spelled, the two escapes give the encoding of the code point. */
  lemma PairDecodes(s: seq<byte>, i: nat, lead: Hex, trail: Hex)
    requires Terminated(s) && Has(s, i, HexText(lead)) && Has(s, i + 6, HexText(trail)) && GoodPair(lead, trail)
    ensures i + 12 < |s| && s[i + 1] == Char('u')
    ensures ParseUtf16(s, i + 1) == Some(Decoded(Encode(PairValue(lead, trail)), i + 12))
  {
    HexLies(s, i, lead);
    HexLies(s, i + 6, trail);
    PairEncoded(s, i + 1, CodeUnit(lead), CodeUnit(trail), PairValue(lead, trail));
  }

  lemma PairEncoded(s: seq<byte>, i: nat, lead: nat, trail: nat, cp: nat)
    requires Terminated(s) && i < |s| && s[i] == Char('u') && Hex4(s, i + 1) == Some(lead) && IsLead(lead)
    requires s[i + 5] == BACKSLASH && s[i + 6] == Char('u') && Hex4(s, i + 7) == Some(trail) && IsTrail(trail)
    requires cp == 0x10000 + (lead - 0xD800) * 0x400 + (trail - 0xDC00)
    ensures ParseUtf16(s, i) == Some(Decoded(Encode(cp), i + 11))
  {
    PairParses(s, i, lead, trail);
    BytesOfIsEncode(PairCodePoint(lead, trail));
  }

  lemma HexSkipped(s: seq<byte>, i: nat, h: Hex)
    requires Terminated(s) && Has(s, i, HexText(h))
    ensures i + 6 < |s| && SkipBody(s, i) == SkipBody(s, i + 6)
  {
    HexLies(s, i, h);
    SkipFourHex(s, i + 2);
  }

  // ----- pieces -----

  lemma UnitPieceReads(s: seq<byte>, i: nat, h: Hex)
    requires Terminated(s) && Has(s, i, HexText(h)) && !(0xD800 <= CodeUnit(h) <= 0xDFFF)
    ensures i + 6 < |s| && s[i] != 0 && DecodeOne(s, i) == Some(Decoded(Encode(CodeUnit(h)), i + 6))
    ensures SkipBody(s, i) == SkipBody(s, i + 6)
  {
    HexLies(s, i, h);
    UnitDecodes(s, i, h);
    HexSkipped(s, i, h);
  }

  lemma PairPieceReads(s: seq<byte>, i: nat, lead: Hex, trail: Hex)
    requires Terminated(s) && Has(s, i, HexText(lead) + HexText(trail)) && GoodPair(lead, trail)
    ensures i + 12 < |s| && s[i] != 0 && DecodeOne(s, i) == Some(Decoded(Encode(PairValue(lead, trail)), i + 12))
    ensures SkipBody(s, i) == SkipBody(s, i + 12)
  {
    HasSplit(s, i, HexText(lead), HexText(trail));
    HexLies(s, i, lead);
    PairDecodes(s, i, lead, trail);
    HexSkipped(s, i, lead);
    HexSkipped(s, i + 6, trail);
  }

  lemma ByteReads(s: seq<byte>, i: nat, c: byte)
    requires Terminated(s) && c >= 0x20 && c != Char('"') && c != Char('\\') && Has(s, i, [c]) && i + 1 < |s|
    ensures s[i] != 0 && DecodeOne(s, i) == Some(Decoded([c], i + 1)) && SkipBody(s, i) == SkipBody(s, i + 1)
  {
    HasAt(s, i, [c], 0);
  }

  lemma ShortReads(s: seq<byte>, i: nat, letter: byte)
    requires Terminated(s) && ShortMeaning(letter).Some? && Has(s, i, [Char('\\'), letter]) && i + 2 < |s|
    ensures s[i] != 0 && DecodeOne(s, i) == Some(Decoded([ShortMeaning(letter).value], i + 2))
    ensures SkipBody(s, i) == SkipBody(s, i + 2)
  {
    HasAt(s, i, [Char('\\'), letter], 0);
    HasAt(s, i, [Char('\\'), letter], 1);
  }

  /** One turn of the decoder reads one piece, and the quote scan steps over it. */
  lemma PieceReads(s: seq<byte>, i: nat, next: nat, p: Piece)
    requires Terminated(s) && Has(s, i, PieceText(p)) && next == i + |PieceText(p)| < |s|
    ensures s[i] != 0 && DecodeOne(s, i) == Some(Decoded(PieceBytes(p), next)) && SkipBody(s, i) == SkipBody(s, next)
  {
    match p
    case Plain(c) => ByteReads(s, i, c);
    case Short(letter) => ShortReads(s, i, letter);
    case Unit(h) => UnitPieceReads(s, i, h);
    case Pair(lead, trail) => PairPieceReads(s, i, lead, trail);
  }

  lemma {:induction false} PiecesRead(s: seq<byte>, i: nat, end: nat, ps: seq<Piece>)
    requires Terminated(s) && Has(s, i, PiecesText(ps)) && end == i + |PiecesText(ps)| < |s|
    ensures Process(s, i, end) == Some(Decoded(PiecesBytes(ps), end)) && SkipBody(s, i) == SkipBody(s, end)
    decreases |ps|
  {
    if ps != [] {
      var t, rest := PieceText(ps[0]), PiecesText(ps[1..]);
      var next := i + |t|;
      HasSplit(s, i, t, rest);
      PieceReads(s, i, next, ps[0]);
      PiecesRead(s, next, end, ps[1..]);
      ProcessTurn(s, i, end, PieceBytes(ps[0]), next);
    }
  }

  lemma SpelledReads(s: seq<byte>, i: nat, end: nat, ps: seq<Piece>, t: seq<byte>, x: seq<byte>)
    requires Terminated(s) && Has(s, i, [QUOTE] + t + [QUOTE]) && end == i + 1 + |t|
    requires t == PiecesText(ps) && x == PiecesBytes(ps)
    ensures i < |s| && s[i] == QUOTE && GetQuoted(s, i) == Some(Decoded(x, end + 1))
  {
    QuotedLies(s, i, end, t);
    PiecesRead(s, i + 1, end, ps);
    QuotedParts(s, i, end, x);
  }

  /** A string spelled out by the grammar is read, with the cursor right behind it. */
  lemma StringReads(s: seq<byte>, i: nat, j: nat, ps: seq<Piece>)
    requires Terminated(s) && Has(s, i, StringText(ps)) && j == i + |StringText(ps)|
    ensures i < |s| && s[i] == QUOTE && GetQuoted(s, i) == Some(Decoded(PiecesBytes(ps), j))
  {
    StringTextIs(ps, PiecesText(ps));
    SpelledReads(s, i, j - 1, ps, PiecesText(ps), PiecesBytes(ps));
  }

  lemma StringTextIs(ps: seq<Piece>, t: seq<byte>)
    requires t == PiecesText(ps)
    ensures StringText(ps) == [QUOTE] + t + [QUOTE] && |StringText(ps)| == |t| + 2
  {
  }

  // ----- the other way round -----

  lemma HexCharFound(c: byte) returns (h: HexChar)
    requires HexValue(c) >= 0
    ensures c == HexCharText(h)
  {
    h := HexChar(HexValue(c), Char('A') <= c <= Char('F'));
  }

  lemma HexFound(s: seq<byte>, i: nat) returns (h: Hex)
    requires Terminated(s) && i + 1 < |s| && s[i] == Char('\\') && s[i + 1] == Char('u') && Hex4(s, i + 2).Some?
    ensures Has(s, i, HexText(h)) && Hex4(s, i + 2) == Some(CodeUnit(h))
  {
    var a := HexCharFound(s[i + 2]);
    var b := HexCharFound(s[i + 3]);
    var c := HexCharFound(s[i + 4]);
    var d := HexCharFound(s[i + 5]);
    h := Hex(a, b, c, d);
    assert s[i..i + 6] == [s[i], s[i + 1], s[i + 2], s[i + 3], s[i + 4], s[i + 5]];
    HexLies(s, i, h);
  }

  lemma SurrogateShape(s: seq<byte>, i: nat, n: nat)
    requires Terminated(s) && i < |s| && s[i] == Char('u') && ParseUtf16(s, i).Some?
    requires Hex4(s, i + 1) == Some(n) && 0xD800 <= n <= 0xDFFF
    ensures IsLead(n) && i + 7 < |s| && s[i + 5] == BACKSLASH && s[i + 6] == Char('u')
    ensures Hex4(s, i + 7).Some? && IsTrail(Hex4(s, i + 7).value)
  {
  }

  lemma HexPieceFound(s: seq<byte>, i: nat) returns (p: Piece)
    requires Terminated(s) && i + 1 < |s| && s[i] == Char('\\') && s[i + 1] == Char('u')
    requires ParseUtf16(s, i + 1).Some?
    ensures Has(s, i, PieceText(p)) && ParseUtf16(s, i + 1) == Some(Decoded(PieceBytes(p), i + |PieceText(p)|))
  {
    var lead := HexFound(s, i);
    if 0xD800 <= CodeUnit(lead) <= 0xDFFF {
      SurrogateShape(s, i + 1, CodeUnit(lead));
      var trail := HexFound(s, i + 6);
      p := PairFound(s, i, lead, trail);
    } else {
      p := UnitFound(s, i, lead);
    }
  }

  lemma UnitFound(s: seq<byte>, i: nat, h: Hex) returns (p: Piece)
    requires Terminated(s) && Has(s, i, HexText(h)) && !(0xD800 <= CodeUnit(h) <= 0xDFFF)
    ensures Has(s, i, PieceText(p)) && i + 6 < |s| && s[i + 1] == Char('u')
    ensures ParseUtf16(s, i + 1) == Some(Decoded(PieceBytes(p), i + |PieceText(p)|))
  {
    p := Unit(h);
    UnitDecodes(s, i, h);
  }

  lemma PairFound(s: seq<byte>, i: nat, lead: Hex, trail: Hex) returns (p: Piece)
    requires Terminated(s) && Has(s, i, HexText(lead)) && Has(s, i + 6, HexText(trail)) && GoodPair(lead, trail)
    ensures Has(s, i, PieceText(p)) && i + 12 < |s| && s[i + 1] == Char('u')
    ensures ParseUtf16(s, i + 1) == Some(Decoded(PieceBytes(p), i + |PieceText(p)|))
  {
    p := Pair(lead, trail);
    HasJoin(s, i, HexText(lead), HexText(trail));
    PairDecodes(s, i, lead, trail);
  }

  lemma PlainFound(s: seq<byte>, i: nat) returns (p: Piece)
    requires i < |s| && s[i] >= 0x20 && s[i] != Char('"') && s[i] != Char('\\')
    ensures Has(s, i, PieceText(p)) && PieceBytes(p) == [s[i]] && |PieceText(p)| == 1
  {
    p := Plain(s[i]);
  }

  lemma ShortFound(s: seq<byte>, i: nat) returns (p: Piece)
    requires i + 1 < |s| && s[i] == Char('\\') && ShortMeaning(s[i + 1]).Some?
    ensures Has(s, i, PieceText(p)) && PieceBytes(p) == [ShortMeaning(s[i + 1]).value] && |PieceText(p)| == 2
  {
    p := Short(s[i + 1]);
  }

  /** Whatever a turn of the decoder takes is a piece. */
  lemma PieceFound(s: seq<byte>, i: nat) returns (p: Piece)
    requires Terminated(s) && i < |s| && s[i] != 0 && s[i] != QUOTE && DecodeOne(s, i).Some?
    ensures Has(s, i, PieceText(p)) && DecodeOne(s, i) == Some(Decoded(PieceBytes(p), i + |PieceText(p)|))
  {
    if s[i] != BACKSLASH {
      p := PlainFound(s, i);
    } else if s[i + 1] == Char('u') {
      p := HexPieceFound(s, i);
    } else {
      p := ShortFound(s, i);
    }
  }

  lemma PutPieceFirst(s: seq<byte>, i: nat, next: nat, end: nat, p: Piece, rest: seq<Piece>) returns (ps: seq<Piece>)
    requires Terminated(s) && i < end < |s| && s[i] != 0 && next == i + |PieceText(p)| <= end
    requires Has(s, i, PieceText(p)) && DecodeOne(s, i) == Some(Decoded(PieceBytes(p), next))
    requires s[next..end] == PiecesText(rest)
    requires Process(s, next, end).Some? ==> Process(s, next, end).value.bytes == PiecesBytes(rest)
    ensures s[i..end] == PiecesText(ps)
    ensures Process(s, i, end).Some? ==> Process(s, i, end).value.bytes == PiecesBytes(ps)
  {
    ps := [p] + rest;
    assert ps[1..] == rest;
    SliceJoin(s, i, next, end, PieceText(p), PiecesText(rest));
    ProcessTurn(s, i, end, PieceBytes(p), next);
  }

  lemma SliceJoin(s: seq<byte>, i: nat, next: nat, end: nat, a: seq<byte>, b: seq<byte>)
    requires Has(s, i, a) && next == i + |a| <= end <= |s| && s[next..end] == b
    ensures s[i..end] == a + b
  {
    assert s[i..end] == s[i..next] + s[next..end];
  }

  lemma {:induction false} PiecesFound(s: seq<byte>, i: nat, end: nat) returns (ps: seq<Piece>)
    requires Terminated(s) && i <= end < |s| && SkipBody(s, i) == Some(end + 1) && Process(s, i, end).Some?
    ensures s[i..end] == PiecesText(ps) && Process(s, i, end).value.bytes == PiecesBytes(ps)
    decreases |s| - i
  {
    if i == end {
      ps := [];
    } else {
      assert s[i] != 0 && s[i] != QUOTE;
      var p := PieceFound(s, i);
      var next := i + |PieceText(p)|;
      TurnStaysInside(s, i, end, next);
      var rest := PiecesFound(s, next, end);
      ps := PutPieceFirst(s, i, next, end, p, rest);
    }
  }

  lemma QuotesAround(s: seq<byte>, i: nat, end: nat, t: seq<byte>)
    requires i < end < |s| && s[i] == QUOTE && s[end] == QUOTE && s[i + 1..end] == t
    ensures s[i..end + 1] == [Char('"')] + t + [Char('"')]
  {
  }

  /** Whatever string the parser takes is spelled out as the grammar says. */
  lemma StringFound(s: seq<byte>, i: nat) returns (ps: seq<Piece>)
    requires Terminated(s) && i < |s| && GetQuoted(s, i).Some?
    ensures s[i..GetQuoted(s, i).value.next] == StringText(ps) && GetQuoted(s, i).value.bytes == PiecesBytes(ps)
  {
    var start, end, bytes := QuotedEnd(s, i);
    ps := PiecesFound(s, start, end);
    QuotesAround(s, i, end, PiecesText(ps));
  }
}
