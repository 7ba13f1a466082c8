/** Where the comment stripper does nothing: it agrees with the tokenizer about what is inside a string. */
module CommentLaws {
  import opened AssocLists
  import opened Bytes
  import opened Comments
  import JsonParser
  import opened JsonRoundTrip
  import opened JsonText
  import opened JsonTrees
  import opened Options
  import opened StringLaws
  import opened Strings

  const STAR: byte := 42

  /** The start tokens in use begin with a slash. */
  ghost predicate SlashFirst(open: CString) {
    open != [] && open[0] == SLASH
  }

  /** Inside a string the stripper changes nothing, and it leaves the string exactly where the quote scan does. */
  lemma {:induction false} InStringAgrees(s: seq<byte>, i: nat, next: nat, open: CString, close: CString)
    requires Terminated(s) && i < |s| && open != [] && SkipBody(s, i) == Some(next)
    ensures Strip(s, i, true, false, open, close) == Strip(s, next, false, false, open, close)
    decreases |s| - i
  {
    if s[i] == QUOTE {
    } else if s[i] == BACKSLASH {
      assert Strip(s, i, true, false, open, close) == Strip(s, i + 1, true, true, open, close);
      InStringAgrees(s, i + 2, next, open, close);
    } else {
      InStringAgrees(s, i + 1, next, open, close);
    }
  }

  /** A byte that begins neither a string nor a comment. */
  ghost predicate Plain(c: byte) {
    c != 0 && c != QUOTE && c != BACKSLASH && c != SLASH
  }

  /** From `i` to `j` there is nothing to strip. */
  ghost predicate Passes(s: seq<byte>, i: nat, j: nat, open: CString, close: CString)
    requires Terminated(s) && open != []
  {
    i < |s| && j < |s| && Strip(s, i, false, false, open, close) == Strip(s, j, false, false, open, close)
  }

  /** Wherever `x` stands, there is nothing to strip in it. */
  ghost predicate Clean(x: seq<byte>, open: CString, close: CString)
    requires open != []
  {
    forall s: seq<byte>, i: nat :: Terminated(s) && Has(s, i, x) && i + |x| < |s| ==> Passes(s, i, i + |x|, open, close)
  }

  lemma CleanConcat(x: seq<byte>, y: seq<byte>, open: CString, close: CString)
    requires open != [] && Clean(x, open, close) && Clean(y, open, close)
    ensures Clean(x + y, open, close)
  {
    forall s: seq<byte>, i: nat | Terminated(s) && Has(s, i, x + y) && i + |x + y| < |s|
      ensures Passes(s, i, i + |x + y|, open, close)
    {
      HasSplit(s, i, x, y);
      assert Passes(s, i, i + |x|, open, close) && Passes(s, i + |x|, i + |x| + |y|, open, close);
    }
  }

  lemma ByteClean(c: byte, open: CString, close: CString)
    requires SlashFirst(open) && Plain(c)
    ensures Clean([c], open, close)
  {
    forall s: seq<byte>, i: nat | Terminated(s) && Has(s, i, [c]) && i + 1 < |s|
      ensures Passes(s, i, i + 1, open, close)
    {
      HasAt(s, i, [c], 0);
      StartsWithFirst(s, i, open);
    }
  }

  lemma {:induction false} PlainClean(x: seq<byte>, open: CString, close: CString)
    requires SlashFirst(open) && forall k :: 0 <= k < |x| ==> Plain(x[k])
    ensures Clean(x, open, close)
    decreases |x|
  {
    if x != [] {
      ByteClean(x[0], open, close);
      PlainClean(x[1..], open, close);
      CleanConcat([x[0]], x[1..], open, close);
      assert [x[0]] + x[1..] == x;
    }
  }

  lemma QuotedClean(str: seq<byte>, escapeSlashes: bool, open: CString, close: CString)
    requires SlashFirst(open)
    ensures Clean(Quoted(str, escapeSlashes), open, close)
  {
    var q := Quoted(str, escapeSlashes);
    forall s: seq<byte>, i: nat | Terminated(s) && Has(s, i, q) && i + |q| < |s|
      ensures Passes(s, i, i + |q|, open, close)
    {
      QuotedTextReads(s, i, i + |q|, str, escapeSlashes);
      StringPasses(s, i, i + |q|, open, close);
    }
  }

  /** The stripper passes over every string that the tokenizer can read. */
  lemma StringPasses(s: seq<byte>, i: nat, next: nat, open: CString, close: CString)
    requires Terminated(s) && i < |s| && open != [] && GetQuoted(s, i).Some? && GetQuoted(s, i).value.next == next
    ensures Passes(s, i, next, open, close)
  {
    InStringAgrees(s, i + 1, next, open, close);
  }

  lemma WsClean(st: Style, level: nat, open: CString, close: CString)
    requires SlashFirst(open)
    ensures Clean(Ws(st, [NEWLINE]), open, close) && Clean(Ws(st, [SPACE]), open, close)
    ensures Clean(Ws(st, Indent(level)), open, close)
    ensures Clean(Separator(st, true), open, close) && Clean(Separator(st, false), open, close)
  {
    IndentIsSpace(level);
    PlainClean(Ws(st, [NEWLINE]), open, close);
    PlainClean(Ws(st, [SPACE]), open, close);
    PlainClean(Ws(st, Indent(level)), open, close);
    PlainClean(Separator(st, true), open, close);
    PlainClean(Separator(st, false), open, close);
  }

  lemma Clean5(a: seq<byte>, b: seq<byte>, c: seq<byte>, d: seq<byte>, e: seq<byte>, open: CString, close: CString)
    requires open != [] && Clean(a, open, close) && Clean(b, open, close) && Clean(c, open, close)
    requires Clean(d, open, close) && Clean(e, open, close)
    ensures Clean(a + b + c + d + e, open, close)
  {
    CleanConcat(a, b, open, close);
    CleanConcat(a + b, c, open, close);
    CleanConcat(a + b + c, d, open, close);
    CleanConcat(a + b + c + d, e, open, close);
  }

  lemma KeyClean(st: Style, key: CString, open: CString, close: CString)
    requires SlashFirst(open)
    ensures Clean(PrintKey(st, key), open, close)
  {
    QuotedClean(key, st.escapeSlashes, open, close);
    ByteClean(COLON, open, close);
    WsClean(st, 0, open, close);
    CleanConcat(Quoted(key, st.escapeSlashes), [COLON], open, close);
    CleanConcat(Quoted(key, st.escapeSlashes) + [COLON], Ws(st, [SPACE]), open, close);
  }

  /** Nothing in the printed form of a value is a comment. */
  lemma {:induction false} PrintClean(lib: Libc, st: Style, v: Json, level: nat, open: CString, close: CString)
    requires SlashFirst(open) && Sound(lib, v)
    ensures Clean(Print(lib, st, v, level), open, close)
    decreases v
  {
    match v
    case Null => PlainClean(NullToken(), open, close);
    case Boolean(b) => PlainClean(if b then TrueToken() else FalseToken(), open, close);
    case Number(x) => PlainClean(lib.format(x), open, close);
    case Str(chars) => QuotedClean(chars, st.escapeSlashes, open, close);
    case Array(items) =>
      ItemsClean(lib, st, items, level, open, close);
      ListClean(st, OPEN_BRACKET, PrintItems(lib, st, items, level), level, CLOSE_BRACKET, open, close);
    case Object(ms) =>
      MembersClean(lib, st, ms, level, open, close);
      ListClean(st, OPEN_BRACE, PrintMembers(lib, st, ms, level), level, CLOSE_BRACE, open, close);
  }

  lemma ListClean(st: Style, left: byte, list: seq<byte>, level: nat, right: byte, open: CString, close: CString)
    requires SlashFirst(open) && Plain(left) && Plain(right) && Clean(list, open, close)
    ensures Clean(Listed(st, left, list, level, right), open, close) && Clean([left, right], open, close)
  {
    WsClean(st, level, open, close);
    ByteClean(left, open, close);
    ByteClean(right, open, close);
    CleanConcat([left], [right], open, close);
    assert [left] + [right] == [left, right];
    Clean5([left], Ws(st, [NEWLINE]), list, Ws(st, Indent(level)), [right], open, close);
  }

  lemma {:induction false} ItemsClean(lib: Libc, st: Style, items: seq<Json>, level: nat, open: CString, close: CString)
    requires SlashFirst(open) && SoundItems(lib, items)
    ensures Clean(PrintItems(lib, st, items, level), open, close)
    decreases items
  {
    if items == [] {
      PlainClean([], open, close);
    } else {
      var ind, v := Ws(st, Indent(level + 1)), Print(lib, st, items[0], level + 1);
      var sep, rest := Separator(st, |items| == 1), PrintItems(lib, st, items[1..], level);
      WsClean(st, level + 1, open, close);
      PrintClean(lib, st, items[0], level + 1, open, close);
      ItemsClean(lib, st, items[1..], level, open, close);
      CleanConcat(sep, rest, open, close);
      CleanConcat(ind, v, open, close);
      CleanConcat(ind + v, sep + rest, open, close);
    }
  }

  lemma {:induction false} MembersClean(lib: Libc, st: Style, ms: seq<Member<Json>>, level: nat, open: CString,
          close: CString)
    requires SlashFirst(open) && SoundMembers(lib, ms)
    ensures Clean(PrintMembers(lib, st, ms, level), open, close)
    decreases ms
  {
    if ms == [] {
      PlainClean([], open, close);
    } else {
      var ind, key, v := Ws(st, Indent(level + 1)), PrintKey(st, ms[0].key), Print(lib, st, ms[0].value, level + 1);
      var sep, rest := Separator(st, |ms| == 1), PrintMembers(lib, st, ms[1..], level);
      WsClean(st, level + 1, open, close);
      KeyClean(st, ms[0].key, open, close);
      PrintClean(lib, st, ms[0].value, level + 1, open, close);
      MembersClean(lib, st, ms[1..], level, open, close);
      CleanConcat(sep, rest, open, close);
      CleanConcat(ind, key, open, close);
      CleanConcat(ind + key, v, open, close);
      CleanConcat(ind + key + v, sep + rest, open, close);
    }
  }

  // ----- what becomes of a comment -----

  function Spaces(n: nat): (w: seq<byte>)
    ensures |w| == n
  {
    seq(n, i requires 0 <= i < n => SPACE)
  }

  /** The first end token behind the text `c` is the one that follows it. */
  ghost predicate EndsOnlyThere(c: seq<byte>, close: CString) {
    close != [] && forall k :: 0 <= k < |c| ==> !StartsWith(c + close, k, close)
  }

  lemma {:induction false} StrstrFinds(s: seq<byte>, i: nat, p: nat, token: CString)
    requires Terminated(s) && i <= p < |s| && StartsWith(s, p, token)
    requires forall k :: i <= k < p ==> s[k] != 0 && !StartsWith(s, k, token)
    ensures Strstr(s, i, token) == Some(p)
    decreases p - i
  {
    if i < p {
      StrstrFinds(s, i + 1, p, token);
    }
  }

  /** The search for the end of a comment whose text `c` stands at `i`. */
  lemma EndFound(s: seq<byte>, i: nat, c: CString, close: CString)
    requires Terminated(s) && Has(s, i, c + close) && EndsOnlyThere(c, close)
    ensures i < |s| && Strstr(s, i, close) == Some(i + |c|)
  {
    HasSplit(s, i, c, close);
    forall k | i <= k < i + |c| ensures s[k] != 0 && !StartsWith(s, k, close) {
      HasAt(s, i, c, k - i);
      StartsWithShift(s, i, c + close, k - i, close);
    }
    StrstrFinds(s, i, i + |c|, close);
  }

  lemma StartsWithShift(s: seq<byte>, i: nat, w: seq<byte>, k: nat, x: seq<byte>)
    requires Has(s, i, w) && k + |x| <= |w|
    ensures StartsWith(s, i + k, x) <==> StartsWith(w, k, x)
  {
    var here, there := s[i + k..i + k + |x|], w[k..k + |x|];
    forall m | 0 <= m < |x| ensures here[m] == there[m] {
      HasAt(s, i, w, k + m);
    }
    assert here == there;
  }

  lemma EndBehindStart(s: seq<byte>, i: nat, from: nat, c: CString, close: CString)
    requires Terminated(s) && i <= from < |s| && Terminated(Blank(s, i, from))
    requires Has(s, from, c + close) && EndsOnlyThere(c, close)
    ensures Strstr(Blank(s, i, from), from, close) == Some(from + |c|)
  {
    BlankAt(s, i, from);
    HasBehind(s, Blank(s, i, from), from, c + close);
    EndFound(Blank(s, i, from), from, c, close);
  }

  lemma BothBlanked(s: seq<byte>, i: nat, from: nat, to: nat, open: CString, c: CString, close: CString)
    requires Terminated(s) && Has(s, i, open + c + close) && SlashFirst(open) && EndsOnlyThere(c, close)
    requires from == i + |open| && to == from + |c| + |close|
    ensures i < |s| && StartsWith(s, i, open) && from <= to < |s|
    ensures Erase(s, i, open, close) == Erased(Blank(Blank(s, i, from), from, to), Some(to))
  {
    Regroup(open, c, close);
    HasSplit(s, i, open, c + close);
    BegunTerminated(s, i, open);
    EndBehindStart(s, i, from, c, close);
    EraseCase(s, i, from, Blank(s, i, from), from + |c|, open, close);
  }

  /** A whole comment at `i` becomes spaces, and the scan goes on behind it. */
  lemma CommentErased(s: seq<byte>, i: nat, from: nat, to: nat, open: CString, c: CString, close: CString)
    requires Terminated(s) && Has(s, i, open + c + close) && SlashFirst(open) && EndsOnlyThere(c, close)
    requires from == i + |open| && to == from + |c| + |close|
    ensures i < |s| && StartsWith(s, i, open)
    ensures Erase(s, i, open, close).next == Some(to) && to < |s|
    ensures forall k :: 0 <= k < |s| ==> Erase(s, i, open, close).text[k] == if i <= k < to then SPACE else s[k]
  {
    BothBlanked(s, i, from, to, open, c, close);
    BlankTwice(s, i, from, to);
  }

  lemma BlankTwice(s: seq<byte>, i: nat, from: nat, to: nat)
    requires i <= from <= to <= |s|
    ensures forall k :: 0 <= k < |s| ==> Blank(Blank(s, i, from), from, to)[k] == if i <= k < to then SPACE else s[k]
  {
    BlankAt(s, i, from);
    BlankAt(Blank(s, i, from), from, to);
  }

  lemma HasBehind(s: seq<byte>, s': seq<byte>, i: nat, x: seq<byte>)
    requires Has(s, i, x) && |s'| == |s| && forall k :: i <= k < |s| ==> s'[k] == s[k]
    ensures Has(s', i, x)
  {
    assert s'[i..i + |x|] == s[i..i + |x|];
  }

  lemma CommentPlace(pre: seq<byte>, x: seq<byte>, post: seq<byte>, s: seq<byte>)
    requires s == pre + x + post && Terminated(post)
    ensures Terminated(s) && Has(s, 0, pre) && Has(s, |pre|, x) && |pre| + |x| < |s|
  {
    assert s[0..0 + |pre|] == pre && s[|pre|..|pre| + |x|] == x;
  }

  lemma SpacedOut(pre: seq<byte>, x: seq<byte>, post: seq<byte>, s: seq<byte>, r: seq<byte>)
    requires s == pre + x + post && |r| == |s|
    requires forall k :: 0 <= k < |s| ==> r[k] == if |pre| <= k < |pre| + |x| then SPACE else s[k]
    ensures r == pre + Spaces(|x|) + post
  {
  }

  lemma CommentSkipped(s: seq<byte>, s': seq<byte>, i: nat, to: nat, open: CString, close: CString)
    requires Terminated(s) && i < |s| && SlashFirst(open) && StartsWith(s, i, open)
    requires Erase(s, i, open, close) == Erased(s', Some(to))
    ensures Strip(s, i, false, false, open, close) == Strip(s', to, false, false, open, close)
  {
    StartsWithFirst(s, i, open);
  }

  /** Outside strings, a comment is worth as many spaces as it has bytes. */
  lemma CommentIsSpace(pre: seq<byte>, open: CString, c: CString, close: CString, post: seq<byte>, s: seq<byte>,
                       s': seq<byte>)
    requires SlashFirst(open) && Clean(pre, open, close) && EndsOnlyThere(c, close) && Terminated(post)
    requires s == pre + (open + c + close) + post && s' == pre + Spaces(|open + c + close|) + post
    ensures Terminated(s) && Terminated(s')
    ensures Strip(s, 0, false, false, open, close) == Strip(s', 0, false, false, open, close)
  {
    var i := |pre|;
    var comment := open + c + close;
    var to := i + |open| + |c| + |close|;
    CommentPlace(pre, comment, post, s);
    CommentPlace(pre, Spaces(|comment|), post, s');
    assert Passes(s, 0, i, open, close) && Passes(s', 0, i, open, close);
    CommentErased(s, i, i + |open|, to, open, c, close);
    SpacedOut(pre, comment, post, s, Erase(s, i, open, close).text);
    CommentSkipped(s, s', i, to, open, close);
    SpacesPass(s', i, |comment|, to, open, close);
  }

  lemma SpacesPass(s: seq<byte>, i: nat, n: nat, to: nat, open: CString, close: CString)
    requires Terminated(s) && Has(s, i, Spaces(n)) && to == i + n < |s| && SlashFirst(open)
    ensures Passes(s, i, to, open, close)
  {
    PlainClean(Spaces(n), open, close);
    assert Passes(s, i, i + |Spaces(n)|, open, close);
  }

  // ----- json_parse_string_with_comments -----

  function Uncommented(s: seq<byte>): (r: seq<byte>)
    requires Terminated(s)
    ensures Terminated(r)
  {
    var blocksGone := Strip(s, 0, false, false, [SLASH, STAR], [STAR, SLASH]);
    StripOnlyBlanks(s, 0, false, false, [SLASH, STAR], [STAR, SLASH]);
    StripOnlyBlanks(blocksGone, 0, false, false, [SLASH, SLASH], [NEWLINE]);
    Strip(blocksGone, 0, false, false, [SLASH, SLASH], [NEWLINE])
  }

  /** No byte order mark is skipped here. */
  function ParseWithComments(lib: Libc, s: seq<byte>): Option<Parsed>
    requires Terminated(s)
  {
    ParseValue(lib, Uncommented(s), 0, 0)
  }

  /** Both passes leave printed text as it is, and both ways of parsing give the same answer for it. */
  lemma PrintedHasNoComments(lib: Libc, st: Style, v: Json)
    requires Valid(v) && NumbersReadBack(lib, v)
    ensures var s := Print(lib, st, v, 0) + [0];
            Uncommented(s) == s && ParseWithComments(lib, s) == ParseString(lib, s)
  {
    var t := Print(lib, st, v, 0);
    var s := t + [0];
    ValidIsSound(lib, v);
    PrintStarts(lib, st, v, 0);
    assert s[0] == t[0];
    assert s[0..0 + |t|] == t;
    PrintClean(lib, st, v, 0, [SLASH, STAR], [STAR, SLASH]);
    PrintClean(lib, st, v, 0, [SLASH, SLASH], [NEWLINE]);
    assert Has(s, 0, t);
    assert Passes(s, 0, |t|, [SLASH, STAR], [STAR, SLASH]) && Passes(s, 0, |t|, [SLASH, SLASH], [NEWLINE]);
  }

  method RemoveAllComments(a: array<byte>)
    requires Terminated(a[..])
    modifies a
    ensures a[..] == Uncommented(old(a[..]))
  {
    ghost var s := a[..];
    RemoveComments(a, [SLASH, STAR], [STAR, SLASH]);
    StripOnlyBlanks(s, 0, false, false, [SLASH, STAR], [STAR, SLASH]);
    RemoveComments(a, [SLASH, SLASH], [NEWLINE]);
  }

  /** `json_parse_string_with_comments`: both passes run in place on a copy of the text. */
  method ParseStringWithComments(hash: CString -> nat, lib: Libc, s: seq<byte>) returns (r: Option<Parsed>)
    requires Terminated(s) && 0 !in s[..|s| - 1]
    ensures r == ParseWithComments(lib, s)
  {
    var copy := new byte[|s|](i requires 0 <= i < |s| => s[i]);
    assert copy[..] == s;
    RemoveAllComments(copy);
    var text := copy[..];
    assert text == Uncommented(s);
    r := JsonParser.ParseValue(hash, lib, text, 0, 0);
  }
}
