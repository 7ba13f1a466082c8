/** Texts with comments, spelled out, and what `json_parse_string_with_comments` makes of them. */
module CommentTexts {
  import opened Bytes
  import opened CommentLaws
  import opened Comments
  import opened JsonSyntax
  import opened JsonText
  import opened JsonTrees
  import opened Options
  import opened ParserSteps
  import opened StringSpelling
  import opened Strings
  import opened SyntaxReads

  // ----- one pass -----

  /** What one pass keeps, and the comments it takes out. */
  datatype Span = Kept(t: seq<byte>) | Comment(c: CString)

  ghost predicate GoodSpans(spans: seq<Span>, open: CString, close: CString)
    requires open != []
  {
    forall k :: 0 <= k < |spans| ==>
                  match spans[k]
                  case Kept(t) => Clean(t, open, close)
                  case Comment(c) => EndsOnlyThere(c, close)
  }

  function SpanText(span: Span, open: CString, close: CString): seq<byte> {
    match span
    case Kept(t) => t
    case Comment(c) => open + c + close
  }

  function SpansText(spans: seq<Span>, open: CString, close: CString): seq<byte> {
    if spans == [] then [] else SpanText(spans[0], open, close) + SpansText(spans[1..], open, close)
  }

  /** The same with spaces in place of the comments. */
  function Spaced(span: Span, open: CString, close: CString): seq<byte> {
    if span.Kept? then span.t else Spaces(|SpanText(span, open, close)|)
  }

  function SpansSpaced(spans: seq<Span>, open: CString, close: CString): seq<byte> {
    if spans == [] then [] else Spaced(spans[0], open, close) + SpansSpaced(spans[1..], open, close)
  }

  lemma CleanEnds(front: seq<byte>, open: CString, close: CString)
    requires SlashFirst(open) && Clean(front, open, close)
    ensures Strip(front + [0], 0, false, false, open, close) == front + [0]
  {
    var s := front + [0];
    assert s[0..0 + |front|] == front;
    assert Has(s, 0, front);
    assert Passes(s, 0, |front|, open, close);
  }

  lemma SpacesClean(n: nat, open: CString, close: CString)
    requires SlashFirst(open)
    ensures Clean(Spaces(n), open, close)
  {
    PlainClean(Spaces(n), open, close);
  }

  /** One span, with `front` passed before it and `rest` behind it. */
  lemma SpanPasses(front: seq<byte>, span: Span, rest: seq<byte>, open: CString, close: CString)
    requires SlashFirst(open) && Clean(front, open, close) && GoodSpans([span], open, close) && Terminated(rest)
    ensures Terminated(front + SpanText(span, open, close) + rest)
    ensures Terminated(front + Spaced(span, open, close) + rest)
    ensures Clean(front + Spaced(span, open, close), open, close)
    ensures Strip(front + SpanText(span, open, close) + rest, 0, false, false, open, close)
            == Strip(front + Spaced(span, open, close) + rest, 0, false, false, open, close)
  {
    assert match [span][0] case Kept(t) => Clean(t, open, close) case Comment(c) => EndsOnlyThere(c, close);
    match span
    case Kept(t) => CleanConcat(front, t, open, close);
    case Comment(c) =>
      var n := |open + c + close|;
      SpacesClean(n, open, close);
      CleanConcat(front, Spaces(n), open, close);
      CommentIsSpace(front, open, c, close, rest, front + (open + c + close) + rest, front + Spaces(n) + rest);
  }

  /** Comments are worth spaces, whatever stands behind them. */
  lemma {:induction false} SpansPass(front: seq<byte>, spans: seq<Span>, rest: seq<byte>, open: CString, close: CString)
    requires SlashFirst(open) && Clean(front, open, close) && GoodSpans(spans, open, close) && Terminated(rest)
    ensures Clean(front + SpansSpaced(spans, open, close), open, close)
    ensures Terminated(front + SpansText(spans, open, close) + rest)
    ensures Terminated(front + SpansSpaced(spans, open, close) + rest)
    ensures Strip(front + SpansText(spans, open, close) + rest, 0, false, false, open, close)
            == Strip(front + SpansSpaced(spans, open, close) + rest, 0, false, false, open, close)
    decreases |spans|
  {
    if spans == [] {
      assert front + [] == front;
    } else {
      var t, u, others := SpanText(spans[0], open, close), Spaced(spans[0], open, close), spans[1..];
      SpanPasses(front, spans[0], SpansText(others, open, close) + rest, open, close);
      SpansPass(front + u, others, rest, open, close);
      Shuffle(front, t, SpansText(others, open, close), rest);
      Shuffle(front, u, SpansText(others, open, close), rest);
      Shuffle(front, u, SpansSpaced(others, open, close), rest);
    }
  }

  lemma Shuffle(a: seq<byte>, b: seq<byte>, c: seq<byte>, d: seq<byte>)
    ensures a + (b + c) + d == a + b + (c + d) == a + b + c + d && a + (b + c) == a + b + c
  {
  }

  /** A pass turns its comments into spaces and changes nothing else. */
  lemma PassSpaces(spans: seq<Span>, open: CString, close: CString)
    requires SlashFirst(open) && GoodSpans(spans, open, close)
    ensures Strip(SpansText(spans, open, close) + [0], 0, false, false, open, close)
            == SpansSpaced(spans, open, close) + [0]
  {
    PlainClean([], open, close);
    SpansPass([], spans, [0], open, close);
    assert [] + SpansText(spans, open, close) == SpansText(spans, open, close);
    assert [] + SpansSpaced(spans, open, close) == SpansSpaced(spans, open, close);
    CleanEnds(SpansSpaced(spans, open, close), open, close);
  }

  lemma {:induction false} NotFound(s: seq<byte>, i: nat, token: CString)
    requires Terminated(s) && i < |s| && token != []
    requires forall k :: i <= k < |s| ==> (s[k] == 0 <==> k == |s| - 1) && !StartsWith(s, k, token)
    ensures Strstr(s, i, token) == None
    decreases |s| - i
  {
    if i + 1 < |s| {
      NotFound(s, i + 1, token);
    }
  }

  /** The start token `open` at `i`, and no end token behind it. */
  lemma OpenEnd(s: seq<byte>, i: nat, from: nat, c: CString, open: CString, close: CString, r: seq<byte>)
    requires Terminated(s) && i < |s| && SlashFirst(open) && close != [] && from == i + |open| && from + |c| + 1 == |s|
    requires Has(s, i, open) && Has(s, from, c + [0]) && forall k :: 0 <= k <= |c| ==> !StartsWith(c + [0], k, close)
    requires |r| == |s| && forall k :: 0 <= k < |s| ==> r[k] == if i <= k < from then SPACE else s[k]
    ensures Strip(s, i, false, false, open, close) == r
  {
    BegunTerminated(s, i, open);
    BlankAt(s, i, from);
    var begun := Blank(s, i, from);
    assert begun == r;
    HasBehind(s, begun, from, c + [0]);
    forall k | from <= k < |begun| ensures (begun[k] == 0 <==> k == |begun| - 1) && !StartsWith(begun, k, close) {
      HasAt(begun, from, c + [0], k - from);
      if k + |close| <= |begun| {
        StartsWithShift(begun, from, c + [0], k - from, close);
      }
    }
    NotFound(begun, from, close);
    EraseOpenEnd(s, i, from, begun, open, close);
    StartsWithFirst(s, i, open);
  }

  lemma OpenEndLies(front: seq<byte>, open: CString, c: CString, s: seq<byte>, i: nat, from: nat, r: seq<byte>)
    requires s == front + (open + c + [0]) && i == |front| && from == i + |open|
    requires r == front + Spaces(|open|) + c + [0]
    ensures Terminated(s) && i < |s| && from + |c| + 1 == |s| == |r|
    ensures Has(s, 0, front) && Has(s, i, open) && Has(s, from, c + [0])
    ensures forall k :: 0 <= k < |s| ==> r[k] == if i <= k < from then SPACE else s[k]
  {
    assert s[0..0 + i] == front && s[i..i + |open|] == open;
    assert s[from..from + |c + [0]|] == c + [0];
  }

  lemma OpenEndPass(front: seq<byte>, open: CString, c: CString, close: CString, s: seq<byte>, r: seq<byte>)
    requires SlashFirst(open) && close != [] && Clean(front, open, close) && s == front + (open + c + [0])
    requires (forall k :: 0 <= k <= |c| ==> !StartsWith(c + [0], k, close)) && r == front + Spaces(|open|) + c + [0]
    ensures Terminated(s) && Strip(s, 0, false, false, open, close) == r
  {
    var i, from := |front|, |front| + |open|;
    OpenEndLies(front, open, c, s, i, from, r);
    OpenEnd(s, i, from, c, open, close, r);
    assert Passes(s, 0, 0 + i, open, close);
  }

  /** A comment without an end loses its start token alone, and the pass ends there. */
  lemma UnclosedComment(spans: seq<Span>, open: CString, c: CString, close: CString, s: seq<byte>)
    requires SlashFirst(open) && close != [] && GoodSpans(spans, open, close)
    requires (forall k :: 0 <= k <= |c| ==> !StartsWith(c + [0], k, close))
    requires s == SpansText(spans, open, close) + (open + c + [0])
    ensures Terminated(s)
    ensures Strip(s, 0, false, false, open, close) == SpansSpaced(spans, open, close) + Spaces(|open|) + c + [0]
  {
    var front, rest := SpansSpaced(spans, open, close), open + c + [0];
    PlainClean([], open, close);
    SpansPass([], spans, rest, open, close);
    assert [] + SpansText(spans, open, close) == SpansText(spans, open, close) && [] + front == front;
    OpenEndPass(front, open, c, close, front + rest, front + Spaces(|open|) + c + [0]);
  }

  // ----- both passes -----

  /** A stretch of text: bytes outside strings and comments, a string after section 7 of RFC 8259, or a comment of
      either kind. */
  datatype Chunk = Outside(t: seq<byte>) | Quotes(pieces: seq<Piece>) | Block(c: CString) | Line(c: CString)

  /** A block comment ends at the first end token; a line comment ends at the line end and has nothing in it that the
      pass over block comments, which comes first, would act on. */
  ghost predicate GoodChunk(chunk: Chunk) {
    match chunk
    case Outside(t) =>
      forall k :: 0 <= k < |t| ==> t[k] != 0 && t[k] != Char('"') && t[k] != Char('\\') && t[k] != Char('/')
    case Quotes(_) => true
    case Block(c) => forall k :: 0 <= k < |c| - 1 ==> c[k] != Char('*') || c[k + 1] != Char('/')
    case Line(c) =>
      && (forall k :: 0 <= k < |c| ==> c[k] != Char('\n') && c[k] != Char('"') && c[k] != Char('\\'))
      && (|c| > 0 ==> c[0] != Char('*'))
      && (forall k :: 0 <= k < |c| - 1 ==> c[k] != Char('/') || c[k + 1] != Char('*'))
  }

  function ChunkText(chunk: Chunk): seq<byte> {
    match chunk
    case Outside(t) => t
    case Quotes(ps) => StringText(ps)
    case Block(c) => [Char('/'), Char('*')] + c + [Char('*'), Char('/')]
    case Line(c) => [Char('/'), Char('/')] + c + [Char('\n')]
  }

  function ChunksText(chunks: seq<Chunk>): seq<byte> {
    if chunks == [] then [] else ChunkText(chunks[0]) + ChunksText(chunks[1..])
  }

  /** The text without its comments: a blank for every byte of a comment, the line end of a line comment included. */
  function WithoutComments(chunks: seq<Chunk>): seq<byte> {
    if chunks == [] then []
    else (match chunks[0]
          case Outside(t) => t
          case Quotes(ps) => StringText(ps)
          case Block(c) => Spaces(|c| + 4)
          case Line(c) => Spaces(|c| + 3)) + WithoutComments(chunks[1..])
  }

  function BlockSpan(chunk: Chunk): Span {
    if chunk.Block? then Comment(chunk.c) else Kept(ChunkText(chunk))
  }

  function LineSpan(chunk: Chunk): Span {
    if chunk.Line? then Comment(chunk.c)
    else if chunk.Block? then Kept(Spaces(|chunk.c| + 4))
    else Kept(ChunkText(chunk))
  }

  function BlockSpans(chunks: seq<Chunk>): seq<Span> {
    if chunks == [] then [] else [BlockSpan(chunks[0])] + BlockSpans(chunks[1..])
  }

  function LineSpans(chunks: seq<Chunk>): seq<Span> {
    if chunks == [] then [] else [LineSpan(chunks[0])] + LineSpans(chunks[1..])
  }

  function BlockOpen(): CString { [SLASH, STAR] }

  function BlockClose(): CString { [STAR, SLASH] }

  function LineOpen(): CString { [SLASH, SLASH] }

  function LineClose(): CString { [NEWLINE] }

  lemma {:induction false} SpansOf(chunks: seq<Chunk>)
    ensures SpansText(BlockSpans(chunks), BlockOpen(), BlockClose()) == ChunksText(chunks)
    ensures SpansSpaced(BlockSpans(chunks), BlockOpen(), BlockClose())
            == SpansText(LineSpans(chunks), LineOpen(), LineClose())
    ensures SpansSpaced(LineSpans(chunks), LineOpen(), LineClose()) == WithoutComments(chunks)
    decreases |chunks|
  {
    if chunks != [] {
      SpansOf(chunks[1..]);
      assert BlockSpans(chunks)[1..] == BlockSpans(chunks[1..]) && LineSpans(chunks)[1..] == LineSpans(chunks[1..]);
    }
  }

  lemma StringPassed(s: seq<byte>, i: nat, j: nat, ps: seq<Piece>, open: CString, close: CString)
    requires Terminated(s) && Has(s, i, StringText(ps)) && j == i + |StringText(ps)| && open != []
    ensures Passes(s, i, j, open, close)
  {
    StringReads(s, i, j, ps);
    StringPasses(s, i, j, open, close);
  }

  lemma StringClean(ps: seq<Piece>, q: seq<byte>, open: CString, close: CString)
    requires SlashFirst(open) && q == StringText(ps)
    ensures Clean(q, open, close)
  {
    forall s: seq<byte>, i: nat | Terminated(s) && Has(s, i, q) && i + |q| < |s|
      ensures Passes(s, i, i + |q|, open, close)
    {
      StringPassed(s, i, i + |q|, ps, open, close);
    }
  }

  lemma OutsideClean(t: seq<byte>, open: CString, close: CString)
    requires GoodChunk(Outside(t)) && SlashFirst(open)
    ensures Clean(t, open, close)
  {
    PlainClean(t, open, close);
  }

  lemma BlockEnds(c: CString)
    requires GoodChunk(Block(c))
    ensures EndsOnlyThere(c, BlockClose())
  {
    var close := BlockClose();
    forall k | 0 <= k < |c| ensures !StartsWith(c + close, k, close) {
      var here := (c + close)[k..k + 2];
      assert here[0] == c[k] && here[1] == if k + 1 < |c| then c[k + 1] else STAR;
    }
  }

  lemma LineEnds(c: CString)
    requires GoodChunk(Line(c))
    ensures EndsOnlyThere(c, LineClose())
  {
    var close := LineClose();
    forall k | 0 <= k < |c| ensures !StartsWith(c + close, k, close) {
      assert (c + close)[k..k + 1][0] == c[k];
    }
  }

  /** A byte at which the pass over block comments goes on. */
  lemma NoBlockHere(s: seq<byte>, k: nat)
    requires Terminated(s) && k + 1 < |s| && s[k] != 0 && s[k] != Char('"') && s[k] != Char('\\')
    requires !(s[k] == Char('/') && s[k + 1] == Char('*'))
    ensures Passes(s, k, k + 1, BlockOpen(), BlockClose())
  {
    var here := s[k..k + 2];
    assert here[0] == s[k] && here[1] == s[k + 1];
    assert !StartsWith(s, k, BlockOpen());
  }

  lemma {:induction false} NoBlockUntil(s: seq<byte>, i: nat, j: nat)
    requires Terminated(s) && i <= j && j < |s|
    requires forall k :: i <= k < j ==> s[k] != 0 && s[k] != Char('"') && s[k] != Char('\\')
    requires forall k :: i <= k < j ==> !(s[k] == Char('/') && s[k + 1] == Char('*'))
    ensures Passes(s, i, j, BlockOpen(), BlockClose())
    decreases j - i
  {
    if i < j {
      NoBlockHere(s, i);
      NoBlockUntil(s, i + 1, j);
    }
  }

  /** Byte `k` of the text begins no string, no escape and no block comment. */
  ghost predicate Harmless(t: seq<byte>, k: nat)
    requires k < |t|
  {
    && t[k] != 0 && t[k] != Char('"') && t[k] != Char('\\')
    && (t[k] == Char('/') ==> k + 1 < |t| && t[k + 1] != Char('*'))
  }

  ghost predicate NoBlockIn(t: seq<byte>) {
    forall k :: 0 <= k < |t| ==> Harmless(t, k)
  }

  lemma LineHasNoBlock(c: CString, t: seq<byte>)
    requires GoodChunk(Line(c)) && t == ChunkText(Line(c))
    ensures NoBlockIn(t)
  {
    forall k | 0 <= k < |t| ensures Harmless(t, k) {
      LineByte(c, t, k);
      if k + 1 < |t| {
        LineByte(c, t, k + 1);
      }
    }
  }

  /** The bytes of a line comment. */
  lemma LineByte(c: CString, t: seq<byte>, k: nat)
    requires t == ChunkText(Line(c)) && k < |t|
    ensures t[k] == if k < 2 then Char('/') else if k < |c| + 2 then c[k - 2] else Char('\n')
    ensures |t| == |c| + 3
  {
  }

  lemma NoBlockAt(s: seq<byte>, i: nat, t: seq<byte>, k: nat)
    requires Has(s, i, t) && k < |t| && NoBlockIn(t) && i + |t| < |s|
    ensures s[i + k] != 0 && s[i + k] != Char('"') && s[i + k] != Char('\\')
    ensures !(s[i + k] == Char('/') && s[i + k + 1] == Char('*'))
  {
    HasAt(s, i, t, k);
    assert Harmless(t, k);
    if t[k] == Char('/') {
      HasAt(s, i, t, k + 1);
    }
  }

  lemma NoBlockPassed(s: seq<byte>, i: nat, j: nat, t: seq<byte>)
    requires Terminated(s) && Has(s, i, t) && j == i + |t| && j < |s| && NoBlockIn(t)
    ensures Passes(s, i, j, BlockOpen(), BlockClose())
  {
    forall k | i <= k < j
      ensures s[k] != 0 && s[k] != Char('"') && s[k] != Char('\\') && !(s[k] == Char('/') && s[k + 1] == Char('*'))
    {
      NoBlockAt(s, i, t, k - i);
    }
    NoBlockUntil(s, i, j);
  }

  /** The pass over block comments finds nothing in a line comment. */
  lemma LineClean(c: CString, t: seq<byte>)
    requires GoodChunk(Line(c)) && t == ChunkText(Line(c))
    ensures Clean(t, BlockOpen(), BlockClose())
  {
    LineHasNoBlock(c, t);
    forall s: seq<byte>, i: nat | Terminated(s) && Has(s, i, t) && i + |t| < |s|
      ensures Passes(s, i, i + |t|, BlockOpen(), BlockClose())
    {
      NoBlockPassed(s, i, i + |t|, t);
    }
  }

  lemma BlockSpanGood(chunk: Chunk)
    requires GoodChunk(chunk)
    ensures GoodSpans([BlockSpan(chunk)], BlockOpen(), BlockClose())
  {
    match chunk
    case Outside(t) => OutsideClean(t, BlockOpen(), BlockClose());
    case Quotes(ps) => StringClean(ps, StringText(ps), BlockOpen(), BlockClose());
    case Block(c) => BlockEnds(c);
    case Line(c) => LineClean(c, ChunkText(chunk));
  }

  lemma LineSpanGood(chunk: Chunk)
    requires GoodChunk(chunk)
    ensures GoodSpans([LineSpan(chunk)], LineOpen(), LineClose())
  {
    match chunk
    case Outside(t) => OutsideClean(t, LineOpen(), LineClose());
    case Quotes(ps) => StringClean(ps, StringText(ps), LineOpen(), LineClose());
    case Block(c) => SpacesClean(|c| + 4, LineOpen(), LineClose());
    case Line(c) => LineEnds(c);
  }

  lemma GoodSpansNext(span: Span, spans: seq<Span>, open: CString, close: CString)
    requires open != [] && GoodSpans([span], open, close) && GoodSpans(spans, open, close)
    ensures GoodSpans([span] + spans, open, close)
  {
    var all := [span] + spans;
    forall k | 0 <= k < |all|
      ensures match all[k] case Kept(t) => Clean(t, open, close) case Comment(c) => EndsOnlyThere(c, close)
    {
      assert all[k] == if k == 0 then [span][0] else spans[k - 1];
    }
  }

  lemma {:induction false} SpansGood(chunks: seq<Chunk>)
    requires forall k :: 0 <= k < |chunks| ==> GoodChunk(chunks[k])
    ensures GoodSpans(BlockSpans(chunks), BlockOpen(), BlockClose())
    ensures GoodSpans(LineSpans(chunks), LineOpen(), LineClose())
    decreases |chunks|
  {
    if chunks != [] {
      SpansGood(chunks[1..]);
      BlockSpanGood(chunks[0]);
      LineSpanGood(chunks[0]);
      GoodSpansNext(BlockSpan(chunks[0]), BlockSpans(chunks[1..]), BlockOpen(), BlockClose());
      GoodSpansNext(LineSpan(chunks[0]), LineSpans(chunks[1..]), LineOpen(), LineClose());
    }
  }

  /** Both passes together turn every comment of a text into blanks and change nothing else. */
  lemma CommentsGone(chunks: seq<Chunk>)
    requires forall k :: 0 <= k < |chunks| ==> GoodChunk(chunks[k])
    ensures Uncommented(ChunksText(chunks) + [0]) == WithoutComments(chunks) + [0]
  {
    SpansGood(chunks);
    SpansOf(chunks);
    PassSpaces(BlockSpans(chunks), BlockOpen(), BlockClose());
    PassSpaces(LineSpans(chunks), LineOpen(), LineClose());
  }

  /** A text behind white space, wherever comments were allowed. */
  lemma WhiteTextReads(lib: Libc, s: seq<byte>, w: seq<byte>, t: seq<byte>, v: Json, suffix: seq<byte>, j: nat)
    requires AllWhite(w) && TextDenotes(lib, t, v) && Terminated(suffix) && s == w + t + suffix && j == |w| + |t|
    requires v.Number? ==> !ContinuesNumber(suffix[0])
    ensures Terminated(s)
    ensures ParseValue(lib, s, 0, 0) == if Height(v) <= 2048 then Some(Parsed(v, j)) else None
  {
    var i := |w|;
    assert [] + w == w;
    TextLies(lib, s, [], w, t, v, suffix, 0, i, j);
    SyntaxReads.SyntaxReads(lib, s, i, j, t, v, 0);
    ValueAfterWs(lib, s, 0, i, 0);
  }

  lemma ReadsAsUncommented(lib: Libc, s: seq<byte>, plain: seq<byte>)
    requires Terminated(s) && Uncommented(s) == plain
    ensures Terminated(plain) && ParseWithComments(lib, s) == ParseValue(lib, plain, 0, 0)
  {
  }

  /** A text with comments is read as the value that it denotes with blanks in place of its comments. */
  lemma CommentedTextParses(lib: Libc, chunks: seq<Chunk>, s: seq<byte>, w: seq<byte>, t: seq<byte>, v: Json,
                            suffix: seq<byte>, j: nat)
    requires (forall k :: 0 <= k < |chunks| ==> GoodChunk(chunks[k])) && s == ChunksText(chunks) + [0]
    requires WithoutComments(chunks) + [0] == w + t + suffix && AllWhite(w) && TextDenotes(lib, t, v)
    requires Terminated(suffix) && (v.Number? ==> !ContinuesNumber(suffix[0])) && j == |w| + |t|
    ensures Terminated(s)
    ensures ParseWithComments(lib, s) == if Height(v) <= 2048 then Some(Parsed(v, j)) else None
  {
    var plain := WithoutComments(chunks) + [0];
    CommentsGone(chunks);
    WhiteTextReads(lib, plain, w, t, v, suffix, j);
    ReadsAsUncommented(lib, s, plain);
  }

  // ----- a quote in a line comment -----

  lemma {:induction false} StringToEnd(s: seq<byte>, i: nat, open: CString, close: CString)
    requires Terminated(s) && i < |s| && open != []
    requires forall k :: i <= k < |s| ==> s[k] != Char('"') && s[k] != Char('\\')
    ensures Strip(s, i, true, false, open, close) == s
    decreases |s| - i
  {
    if s[i] != 0 {
      StringToEnd(s, i + 1, open, close);
    }
  }

  lemma {:induction false} NothingToEnd(s: seq<byte>, i: nat, open: CString, close: CString)
    requires Terminated(s) && i < |s| && open != []
    requires forall k :: i <= k < |s| ==> s[k] != Char('"') && s[k] != Char('\\') && !StartsWith(s, k, open)
    ensures Strip(s, i, false, false, open, close) == s
    decreases |s| - i
  {
    if s[i] != 0 {
      NothingToEnd(s, i + 1, open, close);
    }
  }

  /** A block comment, `null`, and the NUL behind them. */
  function HiddenComment(): (t: seq<byte>)
    ensures Terminated(t)
  {
    [Char('/'), Char('*'), Char('*'), Char('/'), Char('n'), Char('u'), Char('l'), Char('l'), 0]
  }

  lemma QuoteAtTwo(s: seq<byte>)
    requires Terminated(s) && |s| > 3 && s[0] == s[1] == Char('/') && s[2] == Char('"')
    requires forall k :: 3 <= k < |s| ==> s[k] != Char('"') && s[k] != Char('\\')
    ensures Strip(s, 0, false, false, BlockOpen(), BlockClose()) == s
  {
    NoBlockHere(s, 0);
    NoBlockHere(s, 1);
    StringToEnd(s, 3, BlockOpen(), BlockClose());
  }

  lemma HiddenFromBlocks(s: seq<byte>)
    requires s == [Char('/'), Char('/'), Char('"'), Char('\n')] + HiddenComment()
    ensures Terminated(s) && Strip(s, 0, false, false, BlockOpen(), BlockClose()) == s
  {
    var t := HiddenComment();
    assert forall k :: 4 <= k < |s| ==> s[k] == t[k - 4];
    QuoteAtTwo(s);
  }

  lemma LineGone(s: seq<byte>, r: seq<byte>, c: CString)
    requires c == [Char('"')] && s == [] + (LineOpen() + c + LineClose()) + HiddenComment()
    requires r == [] + Spaces(4) + HiddenComment()
    ensures Terminated(s) && Terminated(r)
    ensures Strip(s, 0, false, false, LineOpen(), LineClose()) == Strip(r, 0, false, false, LineOpen(), LineClose())
  {
    assert (c + LineClose())[0..1][0] == Char('"');
    assert !StartsWith(c + LineClose(), 0, LineClose());
    PlainClean([], LineOpen(), LineClose());
    CommentIsSpace([], LineOpen(), c, LineClose(), HiddenComment(), s, r);
  }

  lemma NoLineLeft(r: seq<byte>)
    requires r == Spaces(4) + HiddenComment()
    ensures Terminated(r) && Strip(r, 0, false, false, LineOpen(), LineClose()) == r
  {
    forall k | 0 <= k < |r| ensures !StartsWith(r, k, LineOpen()) {
      StartsWithFirst(r, k, LineOpen());
      assert k + 2 <= |r| ==> r[k..k + 2][1] == r[k + 1];
    }
    NothingToEnd(r, 0, LineOpen(), LineClose());
  }

  /** The pass over block comments takes a quote in a line comment for the start of a string, and leaves the comments
      behind it in the text. */
  lemma QuoteHidesComments(s: seq<byte>, r: seq<byte>)
    requires s == [Char('/'), Char('/'), Char('"'), Char('\n')] + HiddenComment() && r == Spaces(4) + HiddenComment()
    ensures Terminated(s) && Uncommented(s) == r
  {
    HiddenFromBlocks(s);
    assert s == [] + (LineOpen() + [Char('"')] + LineClose()) + HiddenComment();
    assert r == [] + Spaces(4) + HiddenComment();
    LineGone(s, r, [Char('"')]);
    NoLineLeft(r);
  }

  /** A text of two comments and a value that is refused for that reason. */
  lemma HiddenCommentRefused(lib: Libc, s: seq<byte>)
    requires s == [Char('/'), Char('/'), Char('"'), Char('\n')] + HiddenComment()
    ensures Terminated(s) && ParseWithComments(lib, s) == None
  {
    var r := Spaces(4) + HiddenComment();
    QuoteHidesComments(s, r);
    assert r[0..4] == Spaces(4);
    WhiteSkipped(r, 0, 4, Spaces(4));
    ReadsAsUncommented(lib, s, r);
  }
}
