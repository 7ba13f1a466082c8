/** A JSON array streamed into a file piece by piece: the text of src/logger/logger.c and how it reads back. */
module LogFormat {
  import opened Bytes
  import opened JsonRoundTrip
  import opened JsonText
  import opened JsonTrees
  import opened Options
  import opened ParserSteps

  /** What one append adds: `[` for the first value and `,` for the others, the value's text, and a line end. */
  function Entry(first: bool, text: seq<byte>): seq<byte> {
    [if first then OPEN_BRACKET else COMMA] + text + [NEWLINE]
  }

  function LogText(texts: seq<seq<byte>>): seq<byte> {
    if texts == [] then []
    else LogText(texts[..|texts| - 1]) + Entry(|texts| == 1, texts[|texts| - 1])
  }

  ghost predicate AllStart(texts: seq<seq<byte>>) {
    forall k :: 0 <= k < |texts| ==> |texts[k]| > 0 && Starter(texts[k][0])
  }

  lemma LogTextNext(texts: seq<seq<byte>>, text: seq<byte>)
    ensures LogText(texts + [text]) == LogText(texts) + Entry(texts == [], text)
  {
    assert (texts + [text])[..|texts|] == texts;
  }

  /** Where the entry of text `n` starts. */
  ghost function EntryStart(texts: seq<seq<byte>>, n: nat): nat
    requires n <= |texts|
  {
    |LogText(texts[..n])|
  }

  lemma {:induction false} EntryAt(texts: seq<seq<byte>>, n: nat, s: seq<byte>)
    requires n < |texts| && Has(s, 0, LogText(texts))
    ensures Has(s, EntryStart(texts, n), Entry(n == 0, texts[n]))
    ensures EntryStart(texts, n + 1) == EntryStart(texts, n) + |texts[n]| + 2
    decreases |texts|
  {
    var m := |texts| - 1;
    HasSplit(s, 0, LogText(texts[..m]), Entry(m == 0, texts[m]));
    if n == m {
      assert texts[..n + 1] == texts;
    } else {
      EntryAt(texts[..m], n, s);
      assert texts[..m][..n] == texts[..n] && texts[..m][..n + 1] == texts[..n + 1];
    }
  }

  /** The pieces of entry `n`, which starts at `e`: its opening byte, its text from `e + 1` to `q`, its line end. */
  lemma EntryParts(s: seq<byte>, texts: seq<seq<byte>>, n: nat, e: nat, q: nat)
    requires n < |texts| && AllStart(texts) && Has(s, 0, LogText(texts))
    requires e == EntryStart(texts, n) && q == e + 1 + |texts[n]|
    ensures q + 1 == EntryStart(texts, n + 1) <= |s|
    ensures s[e] == (if n == 0 then OPEN_BRACKET else COMMA)
    ensures Has(s, e + 1, texts[n]) && Starter(s[e + 1]) && s[q] == NEWLINE
  {
    var t, lead := texts[n], if n == 0 then OPEN_BRACKET else COMMA;
    EntryAt(texts, n, s);
    HasThree(s, e, [lead], t, [NEWLINE]);
    HasAt(s, e, [lead], 0);
    HasAt(s, q, [NEWLINE], 0);
    HasAt(s, e + 1, t, 0);
  }

  /** One turn of the element loop at `p`, where value `n` of the log ends at `q`. */
  lemma EntryTurn(lib: Libc, s: seq<byte>, items: seq<Json>, n: nat, acc: seq<Json>, p: nat, q: nat, closed: bool,
                  j: nat)
    requires Terminated(s) && n < |items| && acc == items[..n]
    requires p < |s| && s[p] != 0 && q + 1 < |s| && s[q] == NEWLINE
    requires ParseValue(lib, s, p, 1) == Some(Parsed(items[n], q))
    requires n + 1 == |items| ==> s[q + 1] == (if closed then CLOSE_BRACKET else 0) && j == q + 2
    requires n + 1 < |items| ==>
               && s[q + 1] == COMMA && q + 2 < |s| && !IsSpace(s[q + 2]) && s[q + 2] != CLOSE_BRACKET
               && ParseItems(lib, s, q + 2, 1, acc + [items[n]]) == Outcome(closed, Array(items), j)
    ensures ParseItems(lib, s, p, 1, acc) == Outcome(closed, Array(items), j)
  {
    assert SkipWs(s, q) == q + 1;
    assert n + 1 == |items| ==> acc + [items[n]] == items;
  }

  /** Around entry `n` of the log, which ends at `q`: the next entry, or the end of the log. */
  lemma EntryEnds(s: seq<byte>, texts: seq<seq<byte>>, n: nat, e: nat, q: nat, closed: bool, end: nat)
    requires n < |texts| && AllStart(texts) && Has(s, 0, LogText(texts)) && end == |LogText(texts)| < |s|
    requires e == EntryStart(texts, n) && q == e + 1 + |texts[n]|
    requires s[end] == if closed then CLOSE_BRACKET else 0
    ensures TextAt(s, e + 1, q, texts[n]) && Starter(s[e + 1]) && s[q] == NEWLINE && q + 1 < |s|
    ensures n + 1 == |texts| ==> s[q + 1] == (if closed then CLOSE_BRACKET else 0) && q + 1 == end
    ensures n + 1 < |texts| ==>
              q + 2 < |s| && s[q + 1] == COMMA && Starter(s[q + 2]) && q + 1 == EntryStart(texts, n + 1)
  {
    EntryParts(s, texts, n, e, q);
    if n + 1 < |texts| {
      EntryParts(s, texts, n + 1, q + 1, q + 2 + |texts[n + 1]|);
    } else {
      assert texts[..n + 1] == texts;
    }
  }

  /** Wherever the text `t` stands, `v` is read inside an array. */
  ghost predicate ReadsInside(lib: Libc, s: seq<byte>, t: seq<byte>, v: Json)
    requires Terminated(s)
  {
    forall i: nat, j: nat :: TextAt(s, i, j, t) ==> ParseValue(lib, s, i, 1) == Some(Parsed(v, j))
  }

  /** The element loop at entry `n` of the log, which starts at `e`; the last entry ends at `end`. */
  lemma {:induction false} EntriesRead(lib: Libc, s: seq<byte>, items: seq<Json>, texts: seq<seq<byte>>, n: nat,
          acc: seq<Json>, e: nat, p: nat, closed: bool, end: nat, j: nat)
    requires Terminated(s) && |texts| == |items| && n < |items| && AllStart(texts)
    requires acc == items[..n] && e == EntryStart(texts, n) && p == e + 1
    requires forall k :: 0 <= k < |items| ==> ReadsInside(lib, s, texts[k], items[k])
    requires Has(s, 0, LogText(texts)) && end == |LogText(texts)| < |s| && j == end + 1
    requires s[end] == if closed then CLOSE_BRACKET else 0
    ensures p < |s| && Starter(s[p])
    ensures ParseItems(lib, s, p, 1, acc) == Outcome(closed, Array(items), j)
    decreases |items| - n
  {
    var q := p + |texts[n]|;
    EntryEnds(s, texts, n, e, q, closed, end);
    if n + 1 < |items| {
      EntriesRead(lib, s, items, texts, n + 1, acc + [items[n]], q + 1, q + 2, closed, end, j);
    }
    assert ReadsInside(lib, s, texts[n], items[n]);
    EntryTurn(lib, s, items, n, acc, p, q, closed, j);
  }

  /** The texts of values printed for the log. */
  ghost function Texts(lib: Libc, st: Style, items: seq<Json>): seq<seq<byte>> {
    seq(|items|, k requires 0 <= k < |items| => Print(lib, st, items[k], 0))
  }

  /** Values that can be printed and read back inside one array. */
  ghost predicate Loggable(lib: Libc, items: seq<Json>) {
    forall k :: 0 <= k < |items| ==> Sound(lib, items[k]) && Height(items[k]) < MAX_NESTING && !items[k].Number?
  }

  lemma TextsRead(lib: Libc, st: Style, s: seq<byte>, items: seq<Json>)
    requires Terminated(s) && Loggable(lib, items)
    ensures var texts := Texts(lib, st, items);
            AllStart(texts) && forall k :: 0 <= k < |items| ==> ReadsInside(lib, s, texts[k], items[k])
  {
    forall k | 0 <= k < |items|
      ensures var t := Print(lib, st, items[k], 0); |t| > 0 && Starter(t[0]) && ReadsInside(lib, s, t, items[k])
    {
      PrintStarts(lib, st, items[k], 0);
      ValueReads(lib, st, s, items[k], 0, 1);
    }
  }

  /** The log's bytes, with the array closed or not. */
  function FileText(texts: seq<seq<byte>>, closed: bool): seq<byte> {
    LogText(texts) + if closed then [CLOSE_BRACKET, NEWLINE] else []
  }

  lemma EmptyLogReads(lib: Libc, closed: bool)
    ensures Terminated(FileText([], closed) + [0]) && ParseString(lib, FileText([], closed) + [0]) == None
  {
    var s := FileText([], closed) + [0];
    assert s == if closed then [CLOSE_BRACKET, NEWLINE, 0] else [0];
  }

  lemma LogReadsBack(lib: Libc, s: seq<byte>, items: seq<Json>, texts: seq<seq<byte>>, closed: bool, end: nat)
    requires Terminated(s) && |texts| == |items| && items != [] && AllStart(texts)
    requires forall k :: 0 <= k < |items| ==> ReadsInside(lib, s, texts[k], items[k])
    requires Has(s, 0, LogText(texts)) && end == |LogText(texts)| < |s|
    requires s[end] == if closed then CLOSE_BRACKET else 0
    ensures ParseString(lib, s) == Outcome(closed, Array(items), end + 1)
  {
    EntryParts(s, texts, 0, 0, 1 + |texts[0]|);
    EntriesRead(lib, s, items, texts, 0, [], 0, 1, closed, end, end + 1);
    WholeReads(lib, s, items, closed, end + 1);
  }

  lemma LogPlace(s: seq<byte>, texts: seq<seq<byte>>, closed: bool, end: nat)
    requires s == FileText(texts, closed) + [0] && end == |LogText(texts)|
    ensures Terminated(s) && Has(s, 0, LogText(texts)) && end < |s| && s[end] == if closed then CLOSE_BRACKET else 0
  {
    assert s[0..0 + end] == LogText(texts);
  }

  /** The file reads back as the array of exactly the logged values, in order, if and only if it was closed and
      holds at least one value. */
  lemma FileReadsBack(lib: Libc, st: Style, items: seq<Json>, texts: seq<seq<byte>>, closed: bool, s: seq<byte>,
                      end: nat)
    requires Loggable(lib, items) && texts == Texts(lib, st, items)
    requires s == FileText(texts, closed) + [0] && end == |LogText(texts)|
    ensures Terminated(s) && ParseString(lib, s) == Outcome(closed && items != [], Array(items), end + 1)
  {
    LogPlace(s, texts, closed, end);
    if items == [] {
      assert texts == [];
      EmptyLogReads(lib, closed);
    } else {
      TextsRead(lib, st, s, items);
      LogReadsBack(lib, s, items, texts, closed, end);
    }
  }

  lemma WholeReads(lib: Libc, s: seq<byte>, items: seq<Json>, closed: bool, j: nat)
    requires Terminated(s) && 1 < |s| && s[0] == OPEN_BRACKET && Starter(s[1])
    requires ParseItems(lib, s, 1, 1, []) == Outcome(closed, Array(items), j)
    ensures ParseString(lib, s) == Outcome(closed, Array(items), j)
  {
    assert SkipWs(s, 1) == 1;
    ArrayCase(lib, s, 0, 1, 0);
  }
}
