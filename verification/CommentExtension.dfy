/** Allowing comments only adds to what can be parsed. */
module CommentExtension {
  import opened AssocLists
  import opened Bytes
  import opened CommentLaws
  import opened Comments
  import opened JsonText
  import opened JsonTrees
  import opened Options
  import opened ParseLocality
  import opened ParserSteps
  import opened StringLaws
  import opened Strings
  import opened SyntaxReads

  lemma {:induction false} PlainPasses(s: seq<byte>, i: nat, j: nat, open: CString, close: CString)
    requires Terminated(s) && i <= j < |s| && SlashFirst(open) && forall k :: i <= k < j ==> Plain(s[k])
    ensures Passes(s, i, j, open, close)
    decreases j - i
  {
    if i < j {
      StartsWithFirst(s, i, open);
      PlainPasses(s, i + 1, j, open, close);
    }
  }

  lemma {:induction false} WsPasses(s: seq<byte>, i: nat, open: CString, close: CString)
    requires Terminated(s) && i < |s| && SlashFirst(open)
    ensures Passes(s, i, SkipWs(s, i), open, close)
    decreases |s| - i
  {
    if IsSpace(s[i]) {
      StartsWithFirst(s, i, open);
      WsPasses(s, i + 1, open, close);
    }
  }

  lemma AfterPasses(s: seq<byte>, i: nat, bracket: byte, open: CString, close: CString)
    requires Terminated(s) && i < |s| && SlashFirst(open) && Plain(bracket) && !AfterElement(s, i, bracket).Broken?
    ensures Passes(s, i, AfterElement(s, i, bracket).next, open, close)
  {
    var j := SkipWs(s, i);
    WsPasses(s, i, open, close);
    PlainPasses(s, j, j + 1, open, close);
    if s[j] == COMMA {
      var k := SkipWs(s, j + 1);
      WsPasses(s, j + 1, open, close);
      if s[k] == bracket {
        PlainPasses(s, k, k + 1, open, close);
      }
    }
  }

  lemma KeyPasses(s: seq<byte>, i: nat, open: CString, close: CString)
    requires Terminated(s) && i < |s| && SlashFirst(open) && ParseKey(s, i).Some?
    ensures Passes(s, i, ParseKey(s, i).value.next, open, close)
  {
    var q := GetQuoted(s, i).value.next;
    var j := SkipWs(s, q);
    StringPasses(s, i, q, open, close);
    WsPasses(s, q, open, close);
    PlainPasses(s, j, j + 1, open, close);
  }

  lemma TokenPasses(s: seq<byte>, i: nat, token: CString, open: CString, close: CString)
    requires Terminated(s) && i < |s| && SlashFirst(open) && StartsWith(s, i, token)
    requires forall k :: 0 <= k < |token| ==> Plain(token[k])
    ensures i + |token| < |s| && Passes(s, i, i + |token|, open, close)
  {
    TokenInside(s, i, token);
    forall k | i <= k < i + |token| ensures Plain(s[k]) {
      assert s[k] == s[i..i + |token|][k - i];
    }
    PlainPasses(s, i, i + |token|, open, close);
  }

  lemma NumberPasses(lib: Libc, s: seq<byte>, i: nat, open: CString, close: CString)
    requires Terminated(s) && i < |s| && SlashFirst(open) && OrdinaryStrtod(lib)
    requires StartsNumber(s[i]) && ParseNumber(lib, s, i).Some?
    ensures Passes(s, i, ParseNumber(lib, s, i).value.next, open, close)
  {
    var t := s[i..];
    assert Terminated(t);
    assert OrdinaryRead(lib, t);
    var next := i + lib.strtod(t).length;
    forall k | i <= k < next ensures Plain(s[k]) {
      assert s[k] == t[k - i];
    }
    PlainPasses(s, i, next, open, close);
  }

  lemma WordPasses(s: seq<byte>, j: nat, open: CString, close: CString)
    requires Terminated(s) && j < |s| && SlashFirst(open)
    ensures var t := ParseToken(s, j, TrueToken(), Boolean(true));
            var r := if t.Some? then t else ParseToken(s, j, FalseToken(), Boolean(false));
            r.Some? ==> Passes(s, j, r.value.next, open, close)
  {
    if StartsWith(s, j, TrueToken()) {
      TokenPasses(s, j, TrueToken(), open, close);
    } else if StartsWith(s, j, FalseToken()) {
      TokenPasses(s, j, FalseToken(), open, close);
    }
  }

  lemma ScalarPasses(lib: Libc, s: seq<byte>, j: nat, nesting: nat, open: CString, close: CString)
    requires Terminated(s) && j < |s| && SlashFirst(open) && OrdinaryStrtod(lib)
    requires !IsSpace(s[j]) && s[j] != OPEN_BRACE && s[j] != OPEN_BRACKET && ParseValue(lib, s, j, nesting).Some?
    ensures Passes(s, j, ParseValue(lib, s, j, nesting).value.next, open, close)
  {
    ScalarCases(lib, s, j, nesting);
    if s[j] == QUOTE {
      StringPasses(s, j, GetQuoted(s, j).value.next, open, close);
    } else if s[j] == '-' as int || IsDigit(s[j]) {
      NumberPasses(lib, s, j, open, close);
    } else if s[j] == 'n' as int {
      TokenPasses(s, j, NullToken(), open, close);
    } else {
      WordPasses(s, j, open, close);
    }
  }

  /** Whatever text the parser takes for a value, the stripper passes over it. */
  lemma {:induction false} ValuePasses(lib: Libc, s: seq<byte>, i: nat, nesting: nat, open: CString, close: CString)
    requires Terminated(s) && i < |s| && SlashFirst(open) && OrdinaryStrtod(lib)
    requires ParseValue(lib, s, i, nesting).Some?
    ensures Passes(s, i, ParseValue(lib, s, i, nesting).value.next, open, close)
    decreases |s| - i, 3
  {
    var j := SkipWs(s, i);
    WsPasses(s, i, open, close);
    SkipTwice(s, i);
    ValueAfterWs(lib, s, i, j, nesting);
    if s[j] == OPEN_BRACE {
      ObjectPasses(lib, s, j, nesting, open, close);
    } else if s[j] == OPEN_BRACKET {
      ArrayPasses(lib, s, j, nesting, open, close);
    } else {
      ScalarPasses(lib, s, j, nesting, open, close);
    }
  }

  /** The bracket at `j` and the white space behind it. */
  lemma OpeningPasses(s: seq<byte>, j: nat, open: CString, close: CString)
    requires Terminated(s) && j + 1 < |s| && SlashFirst(open) && Plain(s[j])
    ensures Passes(s, j, SkipWs(s, j + 1), open, close)
  {
    PlainPasses(s, j, j + 1, open, close);
    WsPasses(s, j + 1, open, close);
  }

  lemma {:induction false} ArrayPasses(lib: Libc, s: seq<byte>, j: nat, nesting: nat, open: CString, close: CString)
    requires Terminated(s) && j < |s| && SlashFirst(open) && OrdinaryStrtod(lib)
    requires s[j] == OPEN_BRACKET && ParseValue(lib, s, j, nesting).Some?
    ensures Passes(s, j, ParseValue(lib, s, j, nesting).value.next, open, close)
    decreases |s| - j, 2
  {
    var k := SkipWs(s, j + 1);
    OpeningPasses(s, j, open, close);
    ArrayCase(lib, s, j, k, nesting);
    if s[k] == CLOSE_BRACKET {
      PlainPasses(s, k, k + 1, open, close);
    } else {
      ItemsPass(lib, s, k, nesting + 1, [], open, close);
    }
  }

  lemma {:induction false} ObjectPasses(lib: Libc, s: seq<byte>, j: nat, nesting: nat, open: CString, close: CString)
    requires Terminated(s) && j < |s| && SlashFirst(open) && OrdinaryStrtod(lib)
    requires s[j] == OPEN_BRACE && ParseValue(lib, s, j, nesting).Some?
    ensures Passes(s, j, ParseValue(lib, s, j, nesting).value.next, open, close)
    decreases |s| - j, 2
  {
    var k := SkipWs(s, j + 1);
    OpeningPasses(s, j, open, close);
    ObjectCase(lib, s, j, k, nesting);
    if s[k] == CLOSE_BRACE {
      PlainPasses(s, k, k + 1, open, close);
    } else {
      MembersPass(lib, s, k, nesting + 1, [], open, close);
    }
  }

  lemma SkipTwice(s: seq<byte>, i: nat)
    requires Terminated(s) && i < |s|
    ensures SkipWs(s, SkipWs(s, i)) == SkipWs(s, i)
  {
  }

  lemma {:induction false} ItemsPass(lib: Libc, s: seq<byte>, i: nat, nesting: nat, acc: seq<Json>, open: CString,
          close: CString)
    requires Terminated(s) && i < |s| && SlashFirst(open) && OrdinaryStrtod(lib)
    requires ParseItems(lib, s, i, nesting, acc).Some?
    ensures Passes(s, i, ParseItems(lib, s, i, nesting, acc).value.next, open, close)
    decreases |s| - i, 4
  {
    var v := ParseValue(lib, s, i, nesting).value;
    ValuePasses(lib, s, i, nesting, open, close);
    AfterPasses(s, v.next, CLOSE_BRACKET, open, close);
    match AfterElement(s, v.next, CLOSE_BRACKET)
    case More(k) => ItemsPass(lib, s, k, nesting, acc + [v.value], open, close);
    case _ =>
  }

  lemma {:induction false} MembersPass(lib: Libc, s: seq<byte>, i: nat, nesting: nat, acc: seq<Member<Json>>,
          open: CString, close: CString)
    requires Terminated(s) && i < |s| && SlashFirst(open) && OrdinaryStrtod(lib)
    requires ParseMembers(lib, s, i, nesting, acc).Some?
    ensures Passes(s, i, ParseMembers(lib, s, i, nesting, acc).value.next, open, close)
    decreases |s| - i, 4
  {
    var m := ParseMember(lib, s, i, nesting).value;
    KeyPasses(s, i, open, close);
    ValuePasses(lib, s, ParseKey(s, i).value.next, nesting, open, close);
    AfterPasses(s, m.next, CLOSE_BRACE, open, close);
    match AfterElement(s, m.next, CLOSE_BRACE)
    case More(k) => MembersPass(lib, s, k, nesting, acc + [m.member], open, close);
    case _ =>
  }

  /** Where no comment starts, the byte stays. */
  lemma FirstByteStays(s: seq<byte>, i: nat, open: CString, close: CString)
    requires Terminated(s) && i + 1 < |s| && SlashFirst(open) && s[i] != SLASH
    ensures OnlyBlanks(s, Strip(s, i, false, false, open, close), i + 1)
  {
    StartsWithFirst(s, i, open);
    if s[i] == 0 {
    } else if s[i] == BACKSLASH {
      StripOnlyBlanks(s, i + 1, false, true, open, close);
    } else {
      StripOnlyBlanks(s, i + 1, s[i] == QUOTE, false, open, close);
    }
  }

  /** One pass of the stripper leaves a parsed value and its text as they are. */
  lemma PassKeepsValue(lib: Libc, s: seq<byte>, open: CString, close: CString)
    requires Terminated(s) && SlashFirst(open) && OrdinaryStrtod(lib) && ParseValue(lib, s, 0, 0).Some?
    ensures var r := Strip(s, 0, false, false, open, close);
            Terminated(r) && ParseValue(lib, r, 0, 0) == ParseValue(lib, s, 0, 0)
  {
    var next := ParseValue(lib, s, 0, 0).value.next;
    var r := Strip(s, 0, false, false, open, close);
    ValuePasses(lib, s, 0, 0, open, close);
    StripOnlyBlanks(s, next, false, false, open, close);
    if s[next] != SLASH && next + 1 < |s| {
      FirstByteStays(s, next, open, close);
    }
    assert BlankedBehind(s, r, next);
    ValueLocal(lib, s, r, 0, 0, next);
  }

  ghost predicate ByteOrderMark(s: seq<byte>)
    requires Terminated(s)
  {
    s[0] == 0xEF && s[1] == 0xBB && s[2] == 0xBF
  }

  lemma MarkRefused(lib: Libc, s: seq<byte>)
    requires Terminated(s) && s[0] == 0xEF
    ensures ParseValue(lib, s, 0, 0) == None
  {
  }

  /**
   * Every text that `json_parse_string` accepts gives the same value and the same end when comments are allowed, if and
   * only if it has no byte order mark; with one it is refused.
   */
  lemma CommentsExtend(lib: Libc, s: seq<byte>)
    requires Terminated(s) && OrdinaryStrtod(lib) && ParseString(lib, s).Some?
    ensures ParseWithComments(lib, s) == if ByteOrderMark(s) then None else ParseString(lib, s)
  {
    var blocksGone := Strip(s, 0, false, false, [SLASH, STAR], [STAR, SLASH]);
    StripOnlyBlanks(s, 0, false, false, [SLASH, STAR], [STAR, SLASH]);
    if ByteOrderMark(s) {
      FirstByteStays(s, 0, [SLASH, STAR], [STAR, SLASH]);
      FirstByteStays(blocksGone, 0, [SLASH, SLASH], [NEWLINE]);
      MarkRefused(lib, Uncommented(s));
    } else {
      PassKeepsValue(lib, s, [SLASH, STAR], [STAR, SLASH]);
      PassKeepsValue(lib, blocksGone, [SLASH, SLASH], [NEWLINE]);
    }
  }

  /** A text with a byte order mark that is accepted without comments and refused with them. */
  lemma MarkExample(lib: Libc, s: seq<byte>)
    requires s == [0xEF, 0xBB, 0xBF, 'n' as int, 'u' as int, 'l' as int, 'l' as int, 0]
    ensures Terminated(s) && ParseString(lib, s) == Some(Parsed(Null, 7)) && ParseWithComments(lib, s) == None
  {
    assert s[3..3 + |NullToken()|] == NullToken();
    NullReads(lib, s, 3, 0);
    StripOnlyBlanks(s, 0, false, false, [SLASH, STAR], [STAR, SLASH]);
    var blocksGone := Strip(s, 0, false, false, [SLASH, STAR], [STAR, SLASH]);
    FirstByteStays(s, 0, [SLASH, STAR], [STAR, SLASH]);
    FirstByteStays(blocksGone, 0, [SLASH, SLASH], [NEWLINE]);
    MarkRefused(lib, Uncommented(s));
  }
}
