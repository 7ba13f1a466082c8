/** What one step of the parser does: white space, words, and the cases of the two list loops. */
module ParserSteps {
  import opened AssocLists
  import opened Bytes
  import opened JsonText
  import opened JsonTrees
  import opened Options
  import opened StringLaws
  import opened Strings

  lemma {:induction false} WsSkipped(s: seq<byte>, i: nat, j: nat, w: seq<byte>)
    requires Terminated(s) && Has(s, i, w) && j == i + |w| < |s| && AllSpace(w)
    ensures SkipWs(s, i) == SkipWs(s, j)
    decreases |w|
  {
    if w != [] {
      HasSplit(s, i, [w[0]], w[1..]);
      assert [w[0]] + w[1..] == w;
      HasAt(s, i, w, 0);
      WsSkipped(s, i + 1, j, w[1..]);
    }
  }

  /** Bytes with which the text of a value can start. */
  predicate Starter(c: byte) {
    c == OPEN_BRACE || c == OPEN_BRACKET || c == QUOTE || c == 'f' as int || c == 't' as int || c == 'n' as int
    || c == '-' as int || IsDigit(c)
  }

  /** The text `t` from `i` to `j`, with more of the buffer behind it. */
  ghost predicate TextAt(s: seq<byte>, i: nat, j: nat, t: seq<byte>) {
    Has(s, i, t) && j == i + |t| < |s|
  }

  /** A number must not go on at `j`; other values end by themselves. */
  ghost predicate Ends(s: seq<byte>, j: nat, v: Json)
    requires j < |s|
  {
    v.Number? ==> !ContinuesNumber(s[j])
  }

  lemma TokenReads(s: seq<byte>, i: nat, token: seq<byte>, value: Json)
    requires Terminated(s) && 0 !in token && Has(s, i, token) && i < |s|
    ensures ParseToken(s, i, token, value) == Some(Parsed(value, i + |token|))
  {
  }

  /** What `parse_value` does with a value that is no list, by its first byte. */
  lemma ScalarCases(lib: Libc, s: seq<byte>, i: nat, nesting: nat)
    requires Terminated(s) && i < |s| && nesting <= MAX_NESTING
    ensures s[i] == QUOTE && GetQuoted(s, i).Some? ==>
              var d := GetQuoted(s, i).value;
              ParseValue(lib, s, i, nesting) == Some(Parsed(Str(d.bytes), d.next))
    ensures s[i] == '-' as int || IsDigit(s[i]) ==> ParseValue(lib, s, i, nesting) == ParseNumber(lib, s, i)
    ensures s[i] == 'n' as int ==> ParseValue(lib, s, i, nesting) == ParseToken(s, i, NullToken(), Null)
    ensures s[i] == 't' as int || s[i] == 'f' as int ==>
              var t := ParseToken(s, i, TrueToken(), Boolean(true));
              ParseValue(lib, s, i, nesting) == if t.Some? then t else ParseToken(s, i, FalseToken(), Boolean(false))
  {
  }

  /** Whether values nested up to `height` below this one stay within the limit. */
  ghost predicate Fits(nesting: nat, height: nat) {
    nesting + height <= MAX_NESTING
  }

  /** What the element loop is to answer, given whether all elements fit. */
  ghost function Outcome(fits: bool, v: Json, next: nat): Option<Parsed> {
    if fits then Some(Parsed(v, next)) else None
  }

  lemma AfterLast(s: seq<byte>, q: nat, c: nat, close: byte)
    requires Terminated(s) && q < |s| && c < |s| && SkipWs(s, q) == c && s[c] == close && close != 0 && close != COMMA
    ensures AfterElement(s, q, close) == Closed(c + 1)
  {
  }

  lemma AfterComma(s: seq<byte>, q: nat, r: nat, k: nat, close: byte)
    requires Terminated(s) && q < |s| && r + 1 < |s| && k < |s| && SkipWs(s, q) == r && s[r] == COMMA && close != 0
    requires SkipWs(s, r + 1) == k && s[k] != close
    ensures AfterElement(s, q, close) == More(k)
  {
  }

  /** Leading white space does not matter to a value. */
  lemma ValueAfterWs(lib: Libc, s: seq<byte>, i: nat, j: nat, nesting: nat)
    requires Terminated(s) && i < |s| && j < |s| && SkipWs(s, i) == SkipWs(s, j)
    ensures ParseValue(lib, s, i, nesting) == ParseValue(lib, s, j, nesting)
  {
  }

  /** The member loop after a new member that ends at `q`. */
  lemma MembersCase(lib: Libc, s: seq<byte>, p: nat, nesting: nat, acc: seq<Member<Json>>, member: Member<Json>, q: nat)
    requires Terminated(s) && p < |s| && s[p] != 0 && q < |s| && !HasKey(acc, member.key)
    requires ParseMember(lib, s, p, nesting) == Some(ParsedMember(member, q))
    ensures var after, ms := AfterElement(s, q, CLOSE_BRACE), acc + [member];
            && (after.Closed? ==> ParseMembers(lib, s, p, nesting, acc) == Some(Parsed(Object(ms), after.next)))
            && (after.More? ==> ParseMembers(lib, s, p, nesting, acc) == ParseMembers(lib, s, after.next, nesting, ms))
  {
  }

  lemma MemberCase(lib: Libc, s: seq<byte>, p: nat, m: nat, q: nat, nesting: nat, member: Member<Json>, fits: bool)
    requires Terminated(s) && p < |s| && m < |s|
    requires ParseKey(s, p) == Some(Decoded(member.key, m))
    requires ParseValue(lib, s, m, nesting) == Outcome(fits, member.value, q)
    ensures ParseMember(lib, s, p, nesting) == if fits then Some(ParsedMember(member, q)) else None
  {
    assert Member(member.key, member.value) == member;
  }

  lemma ArrayCase(lib: Libc, s: seq<byte>, i: nat, k: nat, nesting: nat)
    requires Terminated(s) && i + 1 < |s| && s[i] == OPEN_BRACKET && k == SkipWs(s, i + 1) && nesting <= MAX_NESTING
    ensures ParseValue(lib, s, i, nesting)
            == if s[k] == CLOSE_BRACKET then Some(Parsed(Array([]), k + 1)) else ParseItems(lib, s, k, nesting + 1, [])
  {
  }

  lemma ObjectCase(lib: Libc, s: seq<byte>, i: nat, k: nat, nesting: nat)
    requires Terminated(s) && i + 1 < |s| && s[i] == OPEN_BRACE && k == SkipWs(s, i + 1) && nesting <= MAX_NESTING
    ensures ParseValue(lib, s, i, nesting)
            == if s[k] == CLOSE_BRACE then Some(Parsed(Object([]), k + 1)) else ParseMembers(lib, s, k, nesting + 1, [])
  {
    assert SkipWs(s, i) == i;
    assert ParseValue(lib, s, i, nesting) == ParseObject(lib, s, i, nesting + 1);
  }

  lemma AfterTrailingComma(s: seq<byte>, q: nat, r: nat, c: nat, close: byte)
    requires Terminated(s) && q < |s| && r + 1 < |s| && c < |s| && SkipWs(s, q) == r && s[r] == COMMA && close != 0
    requires SkipWs(s, r + 1) == c && s[c] == close
    ensures AfterElement(s, q, close) == Closed(c + 1)
  {
  }
}
